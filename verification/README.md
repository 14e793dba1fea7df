# BEERZ assembler, linker and simulator, in Dafny

This project models the core of a teaching tool chain for a 16-bit machine
in the style of the LC-3. The tool chain has three parts:

- **Assembler.** It reads fixed-column source lines, builds an instruction per
  line, keeps a symbol table and a literal table, and prints an object file
  and a listing.
- **Linker (object loader).** It reads object files of header, text, export,
  import and end records into memory banks. It patches imports from every
  file's symbol table, relocates each later file to just past the program
  built so far, and merges them.
- **Simulator.** It loads an absolute object file into a 65,536-word memory.
  It then fetches, decodes and executes words until a HALT trap.

Java's fixed-width arithmetic is written out. `int` overflow is `Wrap32`,
`(short)` casts are `Wrap16`, and `&`, `|`, `<<` and `>>` are defined
bit by bit on unbounded integers (module `Bits`). Exceptions are `Result`
values that name what was thrown. Error messages become error kinds rather
than text.

The modules follow the source's classes:

| area | modules |
|---|---|
| common | `Wrappers`, `Bits`, `JavaLang` (trim, substring, split), `HexText`, `ByteOperations` and `UtilByteOperations` (the two copies of the hex helpers) |
| assembler | `LineScan`, `Operands`, `OperandDefinitions`, `InstructionDefinitions`, `IsaTable` (the parser's instruction set), `Instructions`, `Symbols`, `LiteralTables`, `Assembler`, `Listing` |
| linker | `SymbolEntries`, `LinkerMemory`, `ObjectLoader`, `Link` |
| simulator | `MachineStates`, `SimMemory`, `InstructionFields`, `Handlers`, `TrapHandlers`, `InstructionMappings`, `Machines`, `MachineRun`, `SimLoader` |

Each operation has a partner property:

- Hex text round-trips through `parseHex`.
- Constants read back from their decimal and hex text.
- Operand insertion sets exactly the slot's bits.
- A generated definition encodes an instruction to its operands' values.
- The listing reads back as the program's words.
- A bank's text records load back as the same words, in both the linker's
  and the simulator's loader.
- Relocation and import patching change exactly the named field.
- A load fails as a whole when any line has an error.

## Model

| member | source | states |
|---|---|---|
| MachineStates.FreshState | trunk/state/MachineState.java:15-39 | a new state is running, has Z set and N, P clear, eight zero registers and program counter 0 |
| MachineStates.CopyRegistersSpec | trunk/state/MachineState.java:48-50 | the copy loop started at register i leaves the target's registers below i and takes the source's from i on |
| MachineStates.CloneCopies | trunk/state/MachineState.java:41-52 | a clone equals the original in all three flags, the running flag, the program counter and all eight registers |
| MachineStates.UpdateCcr | trunk/instructions/LoadHandler.java:58-73 | exactly one flag ends up set: Z iff the value is 0, P iff positive, N iff negative; registers, pc and running flag untouched |
| MachineStates.SetRegisterOnly | trunk/instructions/LoadHandler.java:57 | writing register r changes register r alone: the other registers, the flags, pc and running flag keep their values |
| SimMemory.Write | state/MemoryBank.java:11-13 | after a write the address reads the new value and every other address reads what it read before |
| SimMemory.BlankReadsZero | state/MemoryBank.java:7-19 | a new bank reads 0 at every address |
| SimMemory.LastWriteWins | state/MemoryBank.java:11-13 | two writes to one address leave the bank as the second write alone would |
| SimMemory.WritesCommute | state/MemoryBank.java:11-13 | writes to two different addresses can be swapped |
| SimMemory.WriteAllReads | state/MemoryBank.java:11-19 | after any run of writes an address reads the last value written there, or its old value when no write named it |
| InstructionFields.FieldIsExtractValue | util/ByteOperations.java:33-39 | for every int word and 0 <= lo <= hi <= 31, the mask loop then shift yields bits lo..hi-1 as a number in [0, 2^(hi-lo)) |
| InstructionFields.PageStart | trunk/instructions/LoadHandler.java:54-55 | `pc >> 9 << 9` is pc minus pc mod 512, for negative pc too |
| InstructionFields.PageAddress | trunk/instructions/LoadHandler.java:51-56 | the page-replace address lies on pc's 512-word page, at the offset given by the word's low nine bits |
| InstructionFields.Immediate5Value | trunk/Simulator/instructions/AddHandler.java:91-96 | the mask-test-and-or immediate equals the two's-complement value of bits 4..0 |
| InstructionFields.SignBit | trunk/Simulator/instructions/AddHandler.java:94-95 | for a five-bit v, `v & 0x10` is 16 exactly when v >= 16, and then `(short)(v or 0xFFF0)` is v - 32 |
| InstructionFields.ModeBit | trunk/Simulator/instructions/AddHandler.java:83 | the test `(instruction & 0x20) == 0` reads bit 5 alone |
| InstructionFields.IndexMask | trunk/Simulator/instructions/LoadRegisterHandler.java:54-56 | masking the six-bit index with 0x3F changes nothing |
| Handlers.SetAndFlag | trunk/instructions/LoadHandler.java:57-73 | the register gets v, no other register, pc or running flag changes, and the flags give v's sign |
| Handlers.AddHandler | trunk/Simulator/instructions/AddHandler.java:75-103 | the destination gets the short congruent modulo 2^16 to the first source plus the second operand (a register, or bits 4..0 sign-extended when bit 5 is set); no other register changes; the flags give its sign |
| Handlers.AddWraps | trunk/Simulator/instructions/AddHandler.java:98 | 32767 + 1 in the immediate form wraps to -32768 and sets N |
| Handlers.AndHandler | testing/AndTest.java:47-143 | every bit of the destination is the conjunction of that bit of the first source and of the second operand; no other register changes; the flags give its sign |
| Handlers.NotHandler | instructions/NotHandler.java:36-47 | every bit of the destination is the complement of that bit of the source; the flags give its sign |
| Handlers.NotTwice | instructions/NotHandler.java:44 | complementing a register into itself twice restores all registers |
| Handlers.NotMinusOne | instructions/NotHandler.java:44-46 | NOT of -1 is 0 and sets Z alone |
| Handlers.BranchTakenSelected | Simulator/instructions/BranchHandler.java:88-147 | the eight-case switch branches exactly when a flag selected by the condition bits (4 = N, 2 = Z, 1 = P) is set |
| Handlers.BranchHandler | Simulator/instructions/BranchHandler.java:81-148 | a taken branch puts pc on its own page at the word's nine-bit offset, an untaken one leaves pc; registers, flags and running flag never change |
| Handlers.BranchNeverAlways | Simulator/instructions/BranchHandler.java:88-147 | code 0 never branches; code 7 always branches while exactly one flag is set |
| Handlers.Link | Simulator/instructions/JumpSubroutineImmediateHandler.java:53-55 | R7 gets `(short) pc` when bit 11 is set and keeps its value otherwise; nothing else changes |
| Handlers.JumpSubroutineImmediateHandler | Simulator/instructions/JumpSubroutineImmediateHandler.java:48-63 | R7 links as above, pc moves to the nine-bit offset on its own page, flags and other registers stay |
| Handlers.JumpSubroutineRegisterHandler | trunk/Simulator/instructions/JumpSubroutineRegisterHandler.java:53-70 | R7 links first, then pc is the word stored at base register plus six-bit index, the base read after linking |
| Handlers.ReturnHandler | trunk/Simulator/instructions/ReturnHandler.java:21-23 | pc gets R7; registers and flags stay |
| Handlers.JumpThenReturn | Simulator/instructions/JumpSubroutineImmediateHandler.java:48-63 | a linking JSR then RET comes back to the advanced pc as a short, which is pc itself whenever it fits in a short |
| Handlers.LoadHandler | trunk/instructions/LoadHandler.java:44-74 | the destination gets the word at some address on pc's page whose offset is the word's low nine bits; flags give its sign; nothing else changes |
| Handlers.LoadImmediateHandler | instructions/LoadImmediateHandler.java:36-52 | the destination gets the word at the address stored at the page address; flags give its sign |
| Handlers.LoadRegisterHandler | trunk/Simulator/instructions/LoadRegisterHandler.java:46-61 | the destination gets the word at base register plus six-bit index; flags give its sign |
| Handlers.LoadEffectiveAddressHandler | testing/LoadEffectiveAddressTest.java:33-41 | the destination gets the page address as a short; flags give its sign |
| Handlers.StoreHandler | trunk/instructions/StoreHandler.java:38-55 | the source register is written at the page address, every other address and the whole state stay |
| Handlers.StoreImmediateHandler | instructions/StoreImmediateHandler.java:36-70 | the source register is written at the address stored at the page address, and the flags give the source's sign |
| Handlers.StoreRegisterHandler | instructions/StoreRegisterHandler.java:46-61 | the source register is written at base register plus six-bit index; the state stays |
| TrapHandlers.CodeUnit | Simulator/instructions/TrapHandler.java:40 | `(char)` of a short is the code unit in [0, 65536) congruent to it |
| TrapHandlers.Puts | Simulator/instructions/TrapHandler.java:47-53 | the characters printed are the words from R0 on up to, not including, the first zero word, each as a code unit |
| TrapHandlers.ReadChar | Simulator/instructions/TrapHandler.java:59 | `read()` gives -1 on empty input and otherwise the first character, consuming it |
| TrapHandlers.ReadLine | Simulator/instructions/TrapHandler.java:72 | `readLine()` is null exactly on empty input; otherwise a terminator-free line, then "\n", "\r\n", "\r" or the end, then the rest |
| TrapHandlers.ReadLineBack | Simulator/instructions/TrapHandler.java:72 | a terminator-free line followed by "\n" reads back as that line, leaving what follows |
| TrapHandlers.ReadNumber | Simulator/instructions/TrapHandler.java:69-81 | reading fails exactly when there is no line or the line is not a decimal int, and then keeps 0; otherwise it keeps the parsed value |
| TrapHandlers.OutNumberService | Simulator/instructions/TrapHandler.java:36-38 | OUTN prints exactly one text, Java's decimal form of R0, and that text parses back to R0 |
| JavaLang.IntToString | Simulator/instructions/TrapHandler.java:36-38 | an int printed in decimal starts with a minus sign exactly when it is negative, and the rest is the decimal digits of its magnitude with no leading zero unless the int is zero |
| TrapHandlers.OutCharService | Simulator/instructions/TrapHandler.java:39-41 | OUT prints one code unit congruent to R0 modulo 2^16 |
| TrapHandlers.PutStringService | Simulator/instructions/TrapHandler.java:47-53 | PUTS prints the zero-terminated string R0 points at |
| TrapHandlers.RandomService | Simulator/instructions/TrapHandler.java:42-46 | RND puts the next random int, narrowed to a short, in R0 and consumes it; flags give its sign |
| TrapHandlers.InCharService | Simulator/instructions/TrapHandler.java:54-66 | IN prints "? " and puts the next character's low eight bits in R0, or 255 at end of input; flags give its sign |
| TrapHandlers.InNumberService | Simulator/instructions/TrapHandler.java:67-85 | INN prints "d? " and puts the line's decimal value in R0 as a short; a bad or missing line prints the complaint and leaves 0; flags give its sign |
| TrapHandlers.InNumberRoundTrip | Simulator/instructions/TrapHandler.java:67-85 | a short typed on its own line lands in R0 and what follows the line stays unread |
| TrapHandlers.TrapHandler | Simulator/instructions/TrapHandler.java:28-88 | HALT clears the running flag alone; an unknown vector does nothing; the output services leave the state alone; pc is restored in every case |
| InstructionMappings.OpCode | instructions/InstructionMappings.java:72-74 | the op code is a four-bit number |
| InstructionMappings.GetHandler | instructions/InstructionMappings.java:80-85 | a handler comes back exactly when the op code is in the table, and it is the table's entry |
| InstructionMappings.TableIsComplete | instructions/InstructionMappings.java:18-66 | every four-bit op code, and no other number, has a handler |
| InstructionMappings.TableIsOneToOne | instructions/InstructionMappings.java:18-66 | no two op codes share a handler |
| InstructionMappings.CodesOf | instructions/InstructionMappings.java:18-66 | the store handlers sit at 3, 0xb and 7, TRAP at 0xf, DBUG at 8, and BR, JSR, JSRR and RET at 0, 4, 0xc and 0xd, and nowhere else |
| InstructionMappings.Dispatch | instructions/InstructionMappings.java:96-97 | only the store handlers write memory, only TRAP touches the console or the running flag, only BR, JSR, JSRR and RET move the program counter, and ST, STR and DBUG leave the state alone |
| InstructionMappings.Execute | instructions/InstructionMappings.java:93-100 | no instruction word is rejected; memory changes only for op codes 3, 0xb, 7; the console and running flag change only for 0xf; the program counter changes only for 0, 4, 0xc and 0xd; op code 8 changes nothing |
| Machines.NewMachine | program/Machine.java:57-61 | a new machine holds the given memory and console and a fresh state: running, Z set, registers 0 |
| Machines.Step | program/Machine.java:81-99 | one trip never fails, keeps the registers shorts and the program counter an int, and is the execution of the word at the program counter with the counter already advanced by one with int overflow |
| Machines.StepAdvancesPc | program/Machine.java:97-99 | an instruction other than BR, JSR, JSRR and RET leaves the program counter one past the word it was fetched from, with int overflow |
| Machines.StepLinks | program/Machine.java:97-99 | a linking JSR saves the address after itself, as a short, in R7 and jumps to its nine-bit offset within the page of that address |
| Machines.Loop | program/Machine.java:70-87 | the loop ends halted only with the running flag clear, runs out of bound only while running, and never fails |
| Machines.Run | program/Machine.java:67-70 | a run from any int address never fails and, when it halts, the running flag is clear; a machine not running halts at once and one with no bound stops unfinished, in both cases with the program counter at the start address |
| Machines.RunFetchesStart | program/Machine.java:67-85 | a running machine given any bound first executes the word at the start address, with the counter one past it, and loops on from what that gave |
| Machines.GetState | program/Machine.java:106-108 | `getState` gives a state equal to the machine's |
| Machines.MoreFuel | program/Machine.java:70-87 | a run that halts within some bound halts the same way within every larger bound |
| Machines.HaltedStays | program/Machine.java:70 | a machine that is not running is returned as it is |
| MachineRun.HaltStep | Simulator/instructions/TrapHandler.java:33-35 | one trip on TRAP x25 advances pc and clears the running flag; registers, flags, memory and console stay |
| MachineRun.HaltRun | program/Machine.java:70-87 | a running machine at a HALT ends halted after that one instruction, whatever the bound |
| MachineRun.DebugStep | Simulator/instructions/DebugHandler.java:24-44 | one trip on DBUG changes nothing but pc |
| ByteOperations.ParseHex | Assembler/ByteOperations.java:20-34 | an empty text throws on its first character; otherwise one leading 'x' is dropped and the call succeeds exactly when every remaining character is a hex digit of either case, giving the digits' value modulo 2^32 as an int; a bad digit throws with the stripped text |
| HexText.AccumulateHexValue | Assembler/ByteOperations.java:26-32 | the right-to-left digit loop with wrapping `result += multiplier * digit; multiplier *= 16` adds multiplier times the value of the whole text, modulo 2^32, and fails exactly when some character is not a hex digit |
| ByteOperations.RangeMaskValue | Assembler/ByteOperations.java:46-49 | for bit positions 0 <= start <= end <= 31 the loop `mask or= 1 << i` builds the mask with exactly bits start..end-1 set |
| ByteOperations.ExtractValueSpec | Assembler/ByteOperations.java:45-51 | for every int and 0 <= start <= end <= 31, extractValue is bits start..end-1 of the value moved down to bit 0: a number in [0, 2^(end-start)) whose bit i is bit i+start of the value |
| ByteOperations.HexMaskValue | Assembler/ByteOperations.java:61-64 | the mask keeps the low 4n bits for 0 <= n <= 7, is 0 for n <= 0, and is all 32 bits (-1) from n = 8 on |
| ByteOperations.ShlTopNibble | Assembler/ByteOperations.java:63 | for the eighth digit `0xF << 28` overflows to a negative int |
| HexText.ZeroPadShape | Assembler/ByteOperations.java:66-68 | the padding loop prepends exactly max(0, n - length) zeros and nothing else |
| HexText.ZeroPadValue | Assembler/ByteOperations.java:66-68 | padding keeps the text lower-case hex and keeps its value |
| ByteOperations.GetHexSpec | Assembler/ByteOperations.java:60-70 | for 1 <= n <= 8 getHex gives exactly n lower-case digits spelling the value modulo 16^n; from n = 8 on, the value as an unsigned 32-bit number zero-padded to n; for n <= 0 the text "0" |
| ByteOperations.HexRoundTrip | Assembler/ByteOperations.java:20-70 | parsing the four-digit getHex of any int gives back its low 16 bits |
| ByteOperations.GetBitSpec | Assembler/ByteOperations.java:78-80 | getBit(v, i) is bit i of v, and for i below 31 it holds exactly when extractValue(v, i, i + 1) is 1 |
| UtilByteOperations.ParseHex | util/ByteOperations.java:19-31 | succeeds exactly when every character is a hex digit (the empty text giving 0), with the digits' value modulo 2^32; otherwise throws with the text |
| UtilByteOperations.GetHexSpec | util/ByteOperations.java:47-54 | for a non-negative value the n rounds of `% 16` and `/ 16` write n lower-case digits spelling the value modulo 16^n |
| UtilByteOperations.HexRoundTrip | util/ByteOperations.java:19-54 | for 0 <= v < 16^n, parsing getHex(v, n) gives v back |
| UtilByteOperations.GetHexCopiesAgree | util/ByteOperations.java:47-54 | on a non-negative value below 16^n, 1 <= n <= 8, the simulator's digit-by-digit getHex and the assembler's masking getHex return the same text |
| LineScan.LabelSpec | trunk/Assembler/Assembler.java:67 | a line shorter than eight characters has no label; otherwise a name standing in columns 1-7 with only blanks around it there is read as exactly that name |
| LineScan.OpFieldSpec | trunk/Assembler/Assembler.java:90 | on a line of at least fourteen characters, a name standing in columns 10-14 with only blanks around it there is read as exactly that operation |
| LineScan.QuoteFreeOperands | trunk/Assembler/Assembler.java:418-455 | when the operand field (column 18 on, trimmed) has no quote, the operands are its text before the first ';' split at every comma and trimmed, inner empty pieces kept and a blank last piece dropped |
| LineScan.UnclosedQuoteThrows | trunk/Assembler/Assembler.java:423-449 | a quote opened before any ';' of the operand field and never closed makes the call throw the unclosed-quotation error |
| LineScan.GetNameFromFilename | trunk/Assembler/Assembler.java:464-466 | the segment name is always six characters: the file name's first six, then spaces |
| OperandDefinitions.GetMaskValue | Assembler/OperandDefinition.java:62-68 | the downward loop `result or= 1 << i` gives (2^(msb-lsb+1) - 1) * 2^lsb for a slot with 0 <= lsb <= msb <= 30, and 0 when lsb > msb |
| OperandDefinitions.GetMaskBits | Assembler/OperandDefinition.java:62-68 | bit k of the mask is set exactly when lsb <= k <= msb |
| Operands.LiteralConstant | Assembler/Operand.java:97-103 | a literal `=c` denotes the same constant (or the same exception) as c |
| Operands.DecimalConstantRoundTrip | Assembler/Operand.java:97-106 | writing any int in decimal after '#' or "=#" and parsing the constant gives the int back |
| Operands.HexConstantRoundTrip | Assembler/Operand.java:97-109 | a 16-bit value written as 'x' (or "=x") and four hex digits parses back to itself |
| Operands.OtherLeadIsZero | Assembler/Operand.java:113-116 | a constant whose first character is none of '=', '#', 'x', 'R' is 0 whatever follows |
| Operands.NewOperand | Assembler/Operand.java:20-26 | constructing an operand succeeds exactly when the text is non-empty and, for a literal, its constant parses; it keeps the text, has no slot yet, has the determined kind, and only a literal adds its constant to the literal table |
| Operands.LiteralValue | Assembler/Operand.java:72-76 | a literal whose constant is in the table resolves to its slot plus the table's offset |
| Operands.AdjustedValue | Assembler/Operand.java:44-47 | the value to insert is getValue's, except that a relocatable slot holding an immediate gets origin mod 512 subtracted (modulo 2^32); it fails exactly when getValue does |
| Operands.Insert | Assembler/Operand.java:43-49 | insertion succeeds exactly when getValue succeeds, the operand has a slot and the slot's word exists; a missing slot throws a null pointer; no other word changes |
| Operands.InsertKeepsBits | Assembler/Operand.java:48 | insertion never clears a bit of the target word, and bits outside the slot's mask keep their values |
| Operands.InsertField | Assembler/Operand.java:48 | for a slot with 0 <= lsb <= msb <= 30, bit k of the new word is set iff it was set before or k is in lsb..msb and bit k - lsb of the adjusted value is set |
| InstructionDefinitions.AcceptsSpec | trunk/Assembler/InstructionDefinition.java:91-105 | a definition accepts an instruction exactly when the names are equal, the operand counts are equal and every slot lists its operand's type |
| InstructionDefinitions.RelocationMasksSpec | trunk/Assembler/InstructionDefinition.java:127-136 | when every relocatable slot targets an existing base word, bit k of mask w is set exactly when some relocatable slot targeting word w has bit k in its own mask |
| InstructionDefinitions.RelocationMasksOutOfRange | trunk/Assembler/InstructionDefinition.java:127-136 | a relocatable slot targeting a missing word makes the call throw an index error |
| IsaTable.Lookup | Assembler/Parser.java:280-287 | the result is null exactly when no table entry accepts the instruction, and otherwise it is the first entry that accepts it |
| IsaTable.UnknownMnemonic | Assembler/Parser.java:280-287 | a mnemonic that names no table entry finds no definition, whatever its operands |
| IsaTable.RegisterForms | Assembler/Parser.java:12-43 | ADD or AND with three registers selects the register form, base word 0x1000 or 0x5000 |
| IsaTable.ImmediateForms | Assembler/Parser.java:12-43 | ADD or AND with two registers and an immediate or symbol selects the immediate form, base word 0x1020 or 0x5020 |
| IsaTable.BranchWords | Assembler/Parser.java:44-85 | each of the seven branch entries has a base word with N in bit 11, Z in bit 10 and P in bit 9 exactly as its letters say, and one relocatable page-offset slot |
| IsaTable.SlotsBelowOpcode | Assembler/Parser.java:12-183 | every entry has exactly one base word and every slot writes that word within bits 11..0 |
| IsaTable.MasksBelowOpcode | Assembler/Parser.java:16-182 | no slot's mask has a bit at position 12 or above, so operands never change the op-code nibble |
| IsaTable.PageOffsetLayout | Assembler/Parser.java:44-169 | the last operand of every branch, JSR, JMP, LD, LDI, LEA, ST and STI is a relocatable page offset in bits 8..0 |
| IsaTable.IndexLayout | Assembler/Parser.java:102-137 | the last operand of JSRR, JMPR and LDR is an absolute index in bits 5..0 |
| IsaTable.StrTrapLayout | Assembler/Parser.java:170-183 | STR's index is absolute bits 6..0 and TRAP's vector absolute bits 7..0 |
| IsaTable.LinkBit | Assembler/Parser.java:90-115 | JSR and JMP, and JSRR and JMPR, have the same slots and base words that differ only in bit 11, clear for JSR and JSRR |
| Instructions.SetOperandsSpec | trunk/Assembler/Instruction.java:43-48 | setOperands succeeds exactly when every string builds an operand; then the instruction keeps its name, text and definition, has one operand per string in order, and every literal constant has been defined in the literal table in order of appearance |
| Instructions.SetDefinition | trunk/Assembler/Instruction.java:30-38 | the instruction gets the definition, operand i gets slot i for every slot, and operands beyond the slots are left as they were |
| Instructions.GetCodes | Assembler/Instruction.java:134-143 | an instruction without a definition, or whose definition has no base words, gives no codes; otherwise it gives one code per base word |
| Instructions.GetCodesBits | trunk/Assembler/Instruction.java:73-81 | the codes never clear a bit of a base word, and a bit that no operand's slot covers is exactly the base word's bit |
| Instructions.GeneratedEncodes | trunk/Assembler/InstructionDefinition.java:52-66 | giving an instruction a generated definition with whole-word slots makes it encode to its operands' 16-bit values, operand j in word j |
| Instructions.GetRelocationMasksSpec | Assembler/Instruction.java:112-121 | bit k of relocation mask w is set exactly when some operand that reports itself relocatable has a slot targeting word w with bit k in its mask |
| LiteralTables.Define | trunk/Assembler/LiteralTable.java:28-33 | defining adds exactly the value to the defined set; a new value takes the next slot and advances the counter, a known one changes nothing; earlier slots and the offset never change, and a well-formed table stays well formed |
| LiteralTables.GetAddress | trunk/Assembler/LiteralTable.java:36-38 | a defined value's address is its slot plus the offset, modulo 2^32; an undefined value unboxes a null and throws |
| LiteralTables.Entries | trunk/Assembler/LiteralTable.java:41-43 | the entries are exactly the defined values, and each one's recorded slot plus the offset is its address |
| LiteralTables.DefinitionOrder | trunk/Assembler/LiteralTable.java:28-33 | after a run of definitions into a fresh table, exactly the values defined are present, the k-th distinct value in order of first definition has slot k, and the counter is the number of distinct values |
| LiteralTables.EntryCount | trunk/Assembler/LiteralTable.java:28-43 | a fresh table given a run of definitions has one entry per distinct value |
| LiteralTables.DefineIdempotent | trunk/Assembler/LiteralTable.java:28-33 | defining a value a second time changes nothing |
| LiteralTables.SlotStable | trunk/Assembler/LiteralTable.java:28-33 | a defined value keeps its slot whatever is defined after it, and definitions never move the offset |
| LiteralTables.DistinctAddresses | trunk/Assembler/LiteralTable.java:28-38 | in a well-formed table without overflow, two different values have different addresses |
| Symbols.Define | Common/SymbolTable.java:18-20 | after a definition the name is present and yields the new symbol, and every other name yields what it yielded before |
| Symbols.DefineAlias | Common/SymbolTable.java:27-37 | aliasing a name to itself, or to an undefined target, throws; otherwise the alias becomes a local symbol with the target's value and relocatability, and no other name changes |
| Symbols.DefineAllContents | Common/SymbolTable.java:18-20 | after a run of definitions into an empty table, exactly the names defined are present, each yields the last symbol defined under it, and the size is the number of distinct names |
| Symbols.MarkExported | trunk/Common/Symbol.java:94-96 | exporting a defined name sets its export flag alone; no other field and no other name changes |
| Symbols.SetValue | trunk/Common/Symbol.java:71-73 | only the value changes; the name, relocatability and both flags stay |
| Assembler.Start | trunk/Assembler/Assembler.java:41-54 | assembly starts with no errors, symbols, literals, instructions or exports, at line 1 and location, origin and start address 0, neither relocatable nor with .ORIG or .END seen, under a six-character segment name |
| Assembler.LabelErrors | trunk/Assembler/Assembler.java:69-80 | a label is reported for its first character exactly when it starts with x, R, # or =, and for its contents exactly when it holds a space or a comma |
| Assembler.Step | trunk/Assembler/Assembler.java:57-335 | every line, comment or not, advances the line number by one; a comment line changes nothing else; errors and instructions are only ever appended, at most one instruction per line |
| Assembler.ScanLinesSpec | trunk/Assembler/Assembler.java:56-335 | over all lines, the line number advances by the number of lines, no error or instruction is ever taken back, and there are at most as many instructions as lines |
| Assembler.ProcessLine | trunk/Assembler/Assembler.java:64-323 | a line that throws adds no instruction; one that does not adds exactly one instruction, carrying the line's operation name and text, after the earlier ones |
| Assembler.ProcessOperation | trunk/Assembler/Assembler.java:93-323 | for any operation but .ORIG, the location counter moves on by exactly the size of the instruction added, with int overflow, and stays put when the handler throws |
| Assembler.StepAdvances | trunk/Assembler/Assembler.java:57-323 | outside .ORIG a line moves the location counter on by the size of the instruction it adds, and not at all when it adds none |
| Assembler.ScanLinesLocation | trunk/Assembler/Assembler.java:56-335 | over lines with no .ORIG, the location counter ends where it started plus the total size of the instructions added, with int overflow |
| Assembler.LabelBinds | trunk/Assembler/Assembler.java:93-101 | a label on any line but .ORIG, .EQU and .EXT names the location the line starts at, as a relocatable symbol, whatever the operation then does |
| Assembler.Dispatch | trunk/Assembler/Assembler.java:106-317 | no handler removes an error or changes the line number or instruction list, the instruction built is the line's own, only .ORIG, .EQU and .EXT touch the symbol table, and only .ORIG moves the location counter |
| Assembler.Commit | trunk/Assembler/Assembler.java:319-323 | a handler that threw leaves the state as it stood; otherwise the instruction is appended after the earlier ones and the location counter moves on by its definition's size (none without a definition), with int overflow |
| Assembler.OrigSetsOrigin | trunk/Assembler/Assembler.java:106-139 | .ORIG with an immediate sets origin and location to its value and binds the label to it; only a repeated .ORIG or one after other instructions is reported; it takes no space |
| Assembler.OrigRelocatable | trunk/Assembler/Assembler.java:127-142 | .ORIG without an operand makes the program relocatable, leaves origin and location, and a label renames the segment, padded to six characters |
| Assembler.EquConstant | trunk/Assembler/Assembler.java:161-163 | .EQU of an immediate makes the label an absolute symbol of that value, with no error and no space taken |
| Assembler.EquAlias | trunk/Assembler/Assembler.java:153-160 | .EQU of a defined local symbol gives the label its value and relocatability, with no error |
| Assembler.EquImported | trunk/Assembler/Assembler.java:155-157 | .EQU of an imported symbol is reported and defines nothing |
| Assembler.EquUndefinedDropped | trunk/Assembler/Assembler.java:153-160 | as written, .EQU of an undefined symbol throws an exception without a message, so the line is dropped with no error and the state is unchanged |
| Assembler.EquUndefinedReported | trunk/Assembler/Assembler.java:153-160 | corrected, the same line throws the symbol table's alias exception, which has a message, again leaving the state unchanged |
| Assembler.EquCorrectionAgrees | trunk/Assembler/Assembler.java:153-160 | for a defined target the corrected and the as-written handler agree |
| Assembler.FillChecksType | trunk/Assembler/Assembler.java:170-187 | .FILL with one operand takes one word and is reported exactly when the operand is neither an immediate nor a symbol |
| Assembler.StrzCodes | trunk/Assembler/Assembler.java:188-215 | .STRZ of a quoted text raises no error and assembles to one word per character holding its 16-bit code, then a zero word |
| Assembler.CharOperandValue | trunk/Assembler/Assembler.java:205-209 | the operand written for a character reads back, through getValue, as the character's 16-bit code |
| Assembler.EndStart | trunk/Assembler/Assembler.java:216-247 | .END reports a label and a repeated .END; its start address is the operand's value when there is one (failing exactly when that value cannot be read) and the origin otherwise |
| Assembler.BlkwReserves | trunk/Assembler/Assembler.java:248-268 | .BLKW #n reserves n words, or none with an error when n is negative |
| Assembler.BlkwLiteralUnread | trunk/Assembler/Assembler.java:256-260 | a literal operand of .BLKW not defined by an earlier line dereferences null, so the line is dropped silently |
| Assembler.MachineLookup | trunk/Assembler/Assembler.java:304-316 | a machine operation takes the first table entry for its name and operand types without error; with none it is reported and occupies one word per operand |
| Assembler.PageCheck | trunk/Assembler/Assembler.java:339 | on 16-bit addresses `(last & 0xFE00) > 0` holds exactly when the address lies beyond the first 512-word page |
| Assembler.FinalChecksSpec | trunk/Assembler/Assembler.java:336-361 | the whole-program checks pass exactly when the program keeps every limit: one page when relocatable, addresses within 0..0xFFFF, at most 100 symbols, 50 literals and 200 records, and both .ORIG and .END present |
| Assembler.ExportAllSpec | trunk/Assembler/Assembler.java:363-370 | the export loop adds an error exactly when some export is undefined, marks every defined export, and leaves every other symbol alone |
| Assembler.FinishSpec | trunk/Assembler/Assembler.java:336-389 | assembly returns a program exactly when no line reported an error, every limit holds and every export is defined; the program then has the literal pool placed right after the code and its exports marked |
| Listing.SizeFromSum | Assembler/Program.java:25-28 | when every instruction has a definition, the size loop yields the total of their sizes, reduced to an int |
| Listing.PrintListing | Assembler/Program.java:24-48 | the listing fails with a null dereference exactly when some instruction has no definition |
| Listing.PrintListingOffset | Assembler/Program.java:25-30 | otherwise the literal pool is placed at the total size and the instructions are listed from address 0 |
| Listing.ListingReadsBack | Assembler/Program.java:30-47 | reading the listing back gives exactly the words of the instructions that encode, in order, at consecutive addresses; an instruction whose encoding throws prints no word and does not stop the rest |
| Listing.ListStepSkips | Assembler/Program.java:32-46 | an instruction whose encoding throws adds no lines and leaves the address where it was |
| Listing.InstructionLinesRead | Assembler/Program.java:34-41 | the lines printed for one instruction read back as its words at consecutive addresses |
| Listing.SourceLine | Assembler/Program.java:34-38 | the first line of an instruction shows its source after eight columns and a four-space gap, the eight columns being blank exactly when there are no words |
| ObjectLoader.ValidateSymbolName | Loader/Loader.java:204-216 | an empty name throws on its first character; otherwise a name is accepted exactly when it does not start with x, R, # or = and holds no space or comma, and a rejected name gets one of those two faults |
| ObjectLoader.TextRecordSpec | Loader/Loader.java:94-119 | a text record whose fields parse writes its word narrowed to a short even when the address is outside the header's range; the range fault is reported exactly when it is outside; an 11-character record ending in M0 or M1 adds a relocation record for bits 5..0 or 16..0, one with another ending is reported, and any length but 9 or 11 is reported; symbols, imports and flags are untouched |
| ObjectLoader.RelocatableHeader | Loader/Loader.java:79-93 | a header whose address field is MMMM marks the file relocatable, keeps the previous first address, takes the segment name from characters 1..6 and the last address as first + length - 1 in int arithmetic, and reports nothing exactly when both addresses are at most 65535 |
| ObjectLoader.ExportKindStillDefines | Loader/Loader.java:120-133 | an export record whose kind character is neither R nor A is reported, yet its symbol is still defined, as absolute, with the parsed value |
| ObjectLoader.ExportDefines | Loader/Loader.java:120-133 | a well-formed export record defines the name from its seventh character on with the value of its four address digits, relocatable exactly when the kind is R; nothing is reported and no other name or field changes |
| ObjectLoader.ImportAddsEntry | Loader/Loader.java:134-153 | a well-formed import record appends one entry: the name from its eighth character on, the address of its four digits after the I, then the msb and lsb digits; nothing else changes |
| ObjectLoader.ImportEmptyName | Loader/Loader.java:134-153 | an import record of exactly seven characters has an empty name, so validating it throws; the exception becomes one error for the line and the handler's state is kept |
| ObjectLoader.BlankLineSkipped | Loader/Loader.java:72-77 | a line that trims to nothing changes nothing, not even the line number |
| ObjectLoader.StepKeeps | Loader/Loader.java:72-173 | one line never removes an error, and only a header record sets the header flag and only an end record the end flag |
| ObjectLoader.LoadFromKeeps | Loader/Loader.java:72-173 | over the rest of the file errors only accumulate, and each flag stays as it was when no remaining line holds its record |
| ObjectLoader.LineErrorFails | Loader/Loader.java:168-195 | all or nothing: if any line adds an error, the whole load fails and its error list contains that error |
| ObjectLoader.NoHeaderFails | Loader/Loader.java:175-195 | a file with no header record fails, and its errors include the missing-header error |
| ObjectLoader.NoEndFails | Loader/Loader.java:178-195 | a file with no end record fails, and its errors include the missing-end error |
| ObjectLoader.FinishKeeps | Loader/Loader.java:175-197 | the load succeeds exactly when no line reported an error and both a header and an end record were seen, and a failure lists every line error in order |
| ObjectLoader.ObjectLinesLoad | Loader/Loader.java:79-162 | round trip: an absolute object file listing a bank's words as text records between a header and an end record loads without error, with that name and start address, no symbols, imports or relocations, and exactly the bank's words |
| SymbolEntries.NewEntry | Common/SymbolEntry.java:31-36 | the four-argument entry carries its symbol, address, msb and lsb |
| SymbolEntries.RelocationRecord | Common/SymbolEntry.java:41-43 | the three-argument entry has no symbol, which marks it as a relocation record |
| SymbolEntries.SetBitsSpec | Common/SymbolEntry.java:80-100 | within 16 bits, the or-loop from hi down to lo adds exactly the bits lo..hi to what it started with |
| SymbolEntries.MaskBits | Common/SymbolEntry.java:80-86 | within 16 bits, the mask has exactly the bits lsb..msb |
| SymbolEntries.InverseMaskBits | Common/SymbolEntry.java:91-100 | within 16 bits, the inverse mask has exactly the bits above msb and below lsb |
| SymbolEntries.MasksPartition | Common/SymbolEntry.java:80-100 | for a field within bits 16..0 the mask and the inverse mask share no bit and together cover all 16 |
| LinkerMemory.AdjustBounds | trunk/Common/MemoryBank.java:68-75 | the words are unchanged and the bounds only widen, just enough to take in the address |
| LinkerMemory.Write | trunk/Common/MemoryBank.java:48-51 | the address then reads as the value, every other address reads as before, the stored addresses gain exactly this one, and the bounds widen only as far as the address requires |
| LinkerMemory.WriteInBounds | trunk/Common/MemoryBank.java:29-75 | a fresh bank has every stored address within its bounds, and every write keeps it so |
| LinkerMemory.LastWriteWins | trunk/Common/MemoryBank.java:48-51 | writing the same address twice stores what writing only the second value stores |
| LinkerMemory.ReinsertField | trunk/Common/MemoryBank.java:129-130 | after masking out the field and or-ing in f shifted to lsb, the field holds f modulo 2 to the field's width |
| LinkerMemory.MovedField | trunk/Common/MemoryBank.java:127-128 | the field extracted by mask and shift, plus the delta and narrowed to a short, is the old field plus the delta modulo 2 to the width |
| LinkerMemory.RelocateWordSpec | trunk/Common/MemoryBank.java:126-131 | a relocation record adds the delta to its field modulo the field's width and keeps every other bit of the word |
| LinkerMemory.RelocateRecordsKeeps | trunk/Common/MemoryBank.java:125-132 | a word no remaining record names keeps its value through the record loop |
| LinkerMemory.RelocateRecordsOnce | trunk/Common/MemoryBank.java:125-132 | a word named by exactly one record is relocated by that record once |
| LinkerMemory.RelocateMoves | trunk/Common/MemoryBank.java:124-140 | after relocate, the word at k + (b - a) is the record-patched word that was at k, and an address holds a word exactly when its source address did |
| LinkerMemory.FindFromSpec | trunk/Common/MemoryBank.java:151-158 | the table loop yields the value, narrowed to a short, of the last table defining the name, and nothing new when no table does or the name is null |
| LinkerMemory.FindDefined | trunk/Common/MemoryBank.java:151-159 | the table loop finds a value exactly when some table defines the entry's symbol |
| LinkerMemory.ResolveFromOk | trunk/Common/MemoryBank.java:148-165 | import patching succeeds exactly when every entry names a symbol some table defines; otherwise it throws the undefined-symbol error naming one such entry's symbol |
| LinkerMemory.ResolveFromKeeps | trunk/Common/MemoryBank.java:149-164 | a word no import entry names keeps its value through import patching |
| LinkerMemory.ResolveFromPatches | trunk/Common/MemoryBank.java:149-164 | a word named by exactly one import entry gets in that entry's field the value from the last table defining its symbol, and keeps its other bits |
| LinkerMemory.InsertKeysMerges | trunk/Common/MemoryBank.java:171-175 | the write loop over any listing of the source's addresses leaves the destination reading as the source on those addresses and as before elsewhere, with its bounds widened to them |
| LinkerMemory.InsertKeysAgree | trunk/Common/MemoryBank.java:171-175 | every visiting order of the source's words gives the same merged bank, so the hash-map order does not matter |
| LinkerMemory.InsertIntoSpec | trunk/Common/MemoryBank.java:171-175 | after insertInto the destination reads as the source wherever the source has a word and as before elsewhere, and its addresses are the union of both |
| LinkerMemory.SortedSpec | trunk/Common/MemoryBank.java:183-189 | the sorted key list holds every stored address exactly once, in strictly ascending order |
| LinkerMemory.TextRecordReadBack | trunk/Common/MemoryBank.java:190-195 | a text record is nine characters starting with T whose address field parses back as the address and whose word field, read as a short, is the word |
| LinkerMemory.RecordsReadBack | trunk/Common/MemoryBank.java:181-197 | record i reads back as the i-th stored address in ascending order and the word stored there |
| Link.LoadAll | trunk/Loader/Main.java:79-89 | when every file loads, the list holds each file's object, in order |
| Link.LoadAllFails | trunk/Loader/Main.java:79-89 | loading stops with errors exactly when some file fails, and the errors are those of the first failing file |
| Link.LinkFailures | trunk/Loader/Main.java:79-89 | linking ends with load errors exactly when some file fails to load, and reports a failing file's errors |
| Link.FirstFileIsBase | trunk/Loader/Main.java:95-99 | the program's start address is the first file's, and a lone file's bank is taken as it is, its own imports and relocation records never applied |
| Link.FirstFileIgnoresOwnRecords | trunk/Loader/Main.java:95-105 | for any number of files, replacing the first file's imports and relocation records changes nothing about the link |
| Link.PlaceFails | trunk/Loader/Main.java:101-105 | placing a later file fails exactly when one of its imports is defined by no table, with only its own table relocated to one past the program's last address |
| Link.PlaceTouchesOneTable | trunk/Loader/Main.java:102-104 | placing file i changes no symbol table but table i, so later files' symbols are still unrelocated when file i's imports are patched |
| Link.PlaceMoves | trunk/Loader/Main.java:101-105 | a word of a later file that no import or relocation names moves from k to k + target, one past the program's last address |
| Link.PlaceKeeps | trunk/Loader/Main.java:101-105 | the program keeps its word at every address the moved file does not reach |
| SimLoader.HeaderSpec | trunk/Simulator/program/Loader.java:119-129 | a header whose fields parse sets the first address, the last address first + length - 1 in int arithmetic and the header flag, after reporting a length other than 15 and then a segment reaching above 65535 |
| SimLoader.HeaderFirstAddressStays | trunk/Simulator/program/Loader.java:123-124 | when the length field does not parse the header throws, yet the new first address has already been taken |
| SimLoader.ShortHeaderThrows | trunk/Simulator/program/Loader.java:121-123 | a header too short to hold a first address throws after its length fault is reported |
| SimLoader.TextSpec | trunk/Simulator/program/Loader.java:130-139 | a text record whose fields parse writes its word narrowed to a short whatever the checks say, and reports a length other than 9 and an address outside the header's range, in that order |
| SimLoader.EndSpec | trunk/Simulator/program/Loader.java:140-149 | an end record whose address parses sets the start address and the end flag, after reporting a length other than 5 and then a start outside the range |
| SimLoader.BlankLineSkipped | trunk/Simulator/program/Loader.java:112-117 | a line that trims to nothing changes nothing, not even the line number |
| SimLoader.BadRecordReported | trunk/Simulator/program/Loader.java:150-158 | a line starting with anything but H, T or E is reported and otherwise only counted |
| SimLoader.StepKeeps | trunk/Simulator/program/Loader.java:112-159 | one line never removes an error; only header, text and end records set their flag or write the bank |
| SimLoader.LoadFromKeeps | trunk/Simulator/program/Loader.java:112-159 | over the rest of the file errors only accumulate, and the flags and the bank stay put when no remaining line holds their records |
| SimLoader.FinishKeeps | trunk/Simulator/program/Loader.java:161-183 | the load returns the start address exactly when no error was reported and both a header and an end record were seen, and a failure lists every line error |
| SimLoader.LineErrorFails | trunk/Simulator/program/Loader.java:154-181 | all or nothing: an error on any line makes the load fail, and the failure lists that error |
| SimLoader.NoHeaderFails | trunk/Simulator/program/Loader.java:161-181 | a file with no header record fails, and says so |
| SimLoader.NoEndFails | trunk/Simulator/program/Loader.java:164-181 | a file with no end record fails, and says so |
| SimLoader.NoTextKeepsBank | trunk/Simulator/program/Loader.java:130-139 | a file without text records leaves the caller's bank as it was, whatever the outcome |
| SimLoader.TextStepWrites | trunk/Simulator/program/Loader.java:134-138 | a line holding a text record whose fields parse writes its word into the bank |
| SimLoader.WritesSurviveFailure | trunk/Simulator/program/Loader.java:104-183 | the word of the last text record stays in the caller's bank even when the load fails, since writes are never rolled back |
| SimLoader.ParseHexCopiesAgree | util/ByteOperations.java:19-31 | without a leading x the simulator's parseHex reads a text as the assembler's copy does |
| SimLoader.LinkedImageLoads | trunk/Simulator/program/Loader.java:104-183 | the linker's absolute object file for a segment that fits the machine loads into a blank bank without error, returning the start address and leaving exactly the linked words in the bank |

## Left out

- Console and file I/O is not modelled. This covers reading source and object files, writing the object file and the listing, and the main programs' argument handling. Error messages are kept as error kinds, not text.
- The linker builds its merged bank but never writes it out. The model stops at the merged bank.
- `MemoryBank.displayPage` and the simulator's display, trace and step modes only print. The same goes for DBUG's register dump, so DBUG is modelled as changing only the program counter.
- `SymbolTable.relocate` is not part of this model's sources. It is modelled as adding the offset to relocatable symbols only.
- The linker chains `relocate(...)` into `insertInto`, but the shown `MemoryBank.relocate` returns nothing. The model takes the value-returning form that the call implies.
- `Loader/ObjectFile.java`'s constructor takes six arguments, but the loader passes seven, including the segment name. The model keeps the segment name.
- `Common.ByteOperations` and `Common.MemoryBank` of the older tree are not part of this model. The assembler's `ByteOperations` copy stands in for the former, and the trunk `MemoryBank` for the latter.
- `InstructionDefinition.getTable()`, which the trunk assembler searches at trunk/Assembler/Assembler.java:401-409, is not part of this model: no shown revision of `InstructionDefinition` defines it. The instruction table of `Assembler/Parser.java` (IsaTable.Table) stands in for it, with the same first-match search. That table gives JSR the base word 0x4000 (bit 11 clear) and JMP 0x4800 (bit 11 set), while the simulator's JSR handler saves R7 only when bit 11 is set. So with this table an assembled JSR does not link and a JMP does. Whether the unshown trunk table agrees cannot be told from the sources.
- `Simulator.util.ByteOperations` is not part of this model. The `util/ByteOperations.java` copy stands in for it.
- `Operand.getValue` with five arguments is not part of this model. It is modelled as the three-argument form, with no origin adjustment.
- `Instruction.getCodes` is modelled in its trunk form, which takes the origin. It also keeps the older form's guard: with no definition or no base words it gives no codes.
- `OperandType` has no STRING kind. The .STRZ check is modelled as "the operand starts with a double quote".
- The assembler compares `label == ""` by reference. It is modelled as value equality, which is what every label read from a line gives.
- The hex and decimal readers accept ASCII digits only. Java's `Character.digit` also accepts other Unicode digits, and those are left out. Supplementary characters are left out too.
- `insertInto` walks a hash map in an unspecified order. It is modelled by its order-independent result, and InsertKeysAgree shows that every order gives that result.
- RND reads from an injected stream of numbers instead of `java.util.Random`.
- Console input is an injected sequence of lines. Reader buffering, closing the stream after INN, and `IOException` paths are left out. So is the platform's line separator for `println`, which is modelled as "\n".
- The simulator's run loop is bounded by a fuel count, since a program need not halt. MoreFuel shows that a halting run does not depend on the bound.
- The AND and LEA handlers are not among this model's sources. They are modelled from their tests and the instruction format.
- TrapHandlers.Puts: the string pointer is advanced without 32-bit wrap-around. In Java, a string running past address 2^31 - 1 would continue at -2^31.
- The ten-instruction program of `MachineTest` is not replayed. HaltRun and DebugStep state the single steps it relies on.
- Instructions.SetDefinition: requires at least as many operands as slots, which every caller guarantees.
- UtilByteOperations.GetHex: takes a natural count, because a negative count makes Java throw `NegativeArraySizeException`.
- UtilByteOperations.GetHexSpec: stated for non-negative values only, because `Character.forDigit` turns the digits of a negative value into the null character.
- Assembler.Equ: the line loop uses the corrected `.EQU` handler (EquSymbol), so `A .EQU B` with `B` undefined gives an error for the line. As written, the assembler drops that line with no error; EquSymbolAsWritten models that form, and EquCorrectionAgrees shows the two agree whenever the target is defined.
- Assembler.Step: runs the corrected `.EQU` handler through Dispatch, so it reports an alias to an undefined symbol (an AliasToUndefined error) where the original drops the line with no error.
- Assembler.ProcessLine: runs the corrected `.EQU` handler through Dispatch, so it reports an alias to an undefined symbol (an AliasToUndefined error) where the original drops the line with no error.
- Assembler.ProcessOperation: runs the corrected `.EQU` handler through Dispatch, so it reports an alias to an undefined symbol (an AliasToUndefined error) where the original drops the line with no error.
- Assembler.Dispatch: sends `.EQU` to the corrected handler (EquSymbol), so it reports an alias to an undefined symbol (an AliasToUndefined error) where the original drops the line with no error.
- Assembler.ScanLines: runs the corrected `.EQU` handler through Dispatch, so it reports an alias to an undefined symbol (an AliasToUndefined error) where the original drops the line with no error.
- Assembler.Assemble: runs the corrected `.EQU` handler through Dispatch, so it reports an alias to an undefined symbol (an AliasToUndefined error) where the original drops the line with no error.
- LinkerMemory.RelocateMoves: moved addresses k + delta are not wrapped to 32 bits. Java's `entry.getKey() + b - a` wraps, but only for words at addresses near 2^31, which no loaded file has.

## Findings

| source | as written | input that shows it | evidently intended | confidence | as-written member | corrected member |
|---|---|---|---|---|---|---|
| trunk/Assembler/Assembler.java:153-160 | `.EQU` of a symbol reads `symbols.get(target).isImport()` before checking that the symbol exists. For an undefined target this throws a `NullPointerException`. Before JDK 15 that exception has no message, so the handler at lines 325-331 prints a stack trace instead of recording an error. On later JDKs the message is the NPE's own text, so no undefined-symbol error is recorded either way. | `A .EQU B` where `B` is defined nowhere | report the undefined symbol as an error for the line, as `SymbolTable.define(alias, target)` would | not executed | Assembler.EquUndefinedDropped | Assembler.EquUndefinedReported |
