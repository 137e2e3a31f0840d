# MIPS-Sim decode–classify–execute core in Dafny

This is a model of the core of the MIPS-Sim simulator, with proofs. The simulator reads
32-character instruction words of `'0'`/`'1'`, decodes them into one of three instruction
records, and runs them on a computer of 32 registers, 64 data words and 64 instruction slots.

- `binary.dfy` (`Binary`): binary strings and their unsigned value. This is what
  `Long.parseLong(s, 2)` computes on the strings the decoder produces.
- `int32.dfy` (`Int32`): Java `int` and `long` as subset types.
  - `Wrap32` gives the wrap-around of `int` sums and of `(int)` casts.
  - `&` and `|` are defined on the 32-bit patterns.
  - The `Long.toUnsignedString` / `Long.parseUnsignedLong` detour of `addiu` is modelled too.
- `instruction_string.dfy` (`InstructionString`): the word decoder. It reads the opcode, the
  register fields, the function code, both immediates and the jump address.
  - `signExtend` and `twosComplement` are modelled as written.
  - The `slice` scan is modelled exactly as written: a `while` loop proved against the function
    `Sliced`.
  - `slice` drops the `'0'`s that follow the first character up to the next `'1'`. So a signed
    field is read as true two's complement exactly when its first bit is 0 or its first two
    bits are both 1 (`SlicedExactIff`).
  - Any other negative field reads as a different negative number. For example the
    branch-target field `1000000000000111` reads as -1 (`SlicedExample`), not -32761. Both
    readings are negative, so that branch is skipped either way, and no test tells the two
    readings apart. The model keeps `slice` as written because that is what the code computes.
- `instructions.dfy` (`Instructions`):
  - the three records as one datatype `Instr` with a constructor per shape;
  - the three name tables, with the repository's own codes: `add` = 20, `lw` = 23, `sw` = 43;
  - the record constructors and the factory's `createInstruction`.
- `encoding.dfy` (`Encoding`): encoders that build words from fields. Decoding an encoded word
  gives the fields back, and re-encoding a word's decoded fields gives the word back.
- `engine.dfy` (`Engine`): the `Computer` class, with the arrays `gpr`, `mem` and `instructions`
  and the fields `pc`, `ic` and `ir`.
  - It has the constructor, `fetch`, `insertInstruction`, `setPc`, `decode`, the fourteen
    handlers and the two-stage `execute`.
  - Each handler method is proved to move the computer's state exactly as its step function on
    the value `Machine` says. `Execute` is proved against `Step`.
- `execute_properties.dfy` (`ExecuteProperties`): what `execute` does, stated by mnemonic.
  - Dispatch follows the decoded name.
  - It states what each operation may change.
  - It relates `add`/`addu`, `addi`/`addiu`, `beq`/`bne` and `sw`/`lw`.
- `scenarios.dfy` (`Scenarios`): programs run on a fresh computer.
  - `Run` gives the state after `n` fetch–execute cycles.
  - `RunProgram` performs those cycles on the class, and is proved to reach `Run`'s state.
  - The programs of the simulator's test suite are generalised over the immediates they use.

Error conditions that Java raises as exceptions are preconditions here:
- a word that is not 32 binary characters;
- a full instruction memory on insert;
- `pc` off the instruction memory on fetch;
- an empty `ir`, or a record whose shape does not match its opcode, on execute.

## Model

| member | source | states |
|---|---|---|
| InstructionString.ParseOpcode | InstructionString.java:28-30 | the opcode is a 6-character binary string |
| InstructionString.ParseFunction | InstructionString.java:32 | the function code is a 6-character binary string |
| InstructionString.OpcodeValue | RegisterInstruction.java:30 | the parsed opcode lies in [0, 63] |
| InstructionString.ParseSource | InstructionString.java:54-56 | the source register index lies in [0, 31] |
| InstructionString.ParseTarget | InstructionString.java:58-60 | the target register index lies in [0, 31] |
| InstructionString.ParseDestination | InstructionString.java:62-64 | the destination register index lies in [0, 31] |
| InstructionString.ParseShift | InstructionString.java:66-68 | the shift amount lies in [0, 31] |
| InstructionString.ParseImmediateUnsigned | InstructionString.java:42-44 | the unsigned immediate lies in [0, 65535] |
| InstructionString.SignExtend | InstructionString.java:91-97 | the result has 32 characters and ends with the field; every padding character is the field's first one; a binary field stays binary |
| InstructionString.SignExtendValue | InstructionString.java:91-97 | padding adds 2^32 - 2^n to the field's value when its first bit is 1, and nothing otherwise |
| InstructionString.TwosComplement | InstructionString.java:46-48 | the result is the field's two's complement value at its own width; it is negative exactly when the first bit is 1 |
| InstructionString.Slice | InstructionString.java:99-108 | the scanning loop terminates and returns `Sliced(bits)` |
| InstructionString.SlicedShape | InstructionString.java:99-108 | `slice` keeps the first and the last character and drops only '0's, from position 1 up to where the scan stops |
| InstructionString.SlicedIdentity | InstructionString.java:99-108 | when the second character is '1', or the field has two characters, `slice` changes nothing |
| InstructionString.SlicedNonNegative | InstructionString.java:99-108 | for a field starting with '0', the signed parse is the field's unsigned value |
| InstructionString.SlicedNegative | InstructionString.java:99-108 | for a field starting with '1', the signed parse is negative |
| InstructionString.SlicedInexact | InstructionString.java:99-108 | for a field starting with "10", the signed parse is greater than true two's complement |
| InstructionString.SlicedExactIff | InstructionString.java:99-108 | the signed parse equals true two's complement if and only if the first bit is 0 or the first two bits are 1 |
| InstructionString.AllOnes | InstructionString.java:99-108 | a field of only '1's passes `slice` unchanged and parses as -1 |
| InstructionString.SlicedExample | ComputerTest.java:274-288 | the branch field "1000000000000111" slices to "1111" and parses as -1 |
| InstructionString.ParseImmediateSigned | InstructionString.java:38-40 | with bit 16 clear, the signed immediate equals the unsigned one; it is negative exactly when bit 16 is set |
| InstructionString.ParseJumpAddress | InstructionString.java:34-36 | with bit 6 clear, the address equals the unsigned value of bits 6-31; it is negative exactly when bit 6 is set |
| InstructionString.ImmediateSignedExactIff | InstructionString.java:38-40 | the signed immediate is exact two's complement if and only if bit 16 is 0 or bits 16 and 17 are both 1 |
| InstructionString.JumpAddressExactIff | InstructionString.java:34-36 | the jump address is exact two's complement if and only if bit 6 is 0 or bits 6 and 7 are both 1 |
| InstructionString.JumpAllOnes | ComputerTest.java:211-219 | twenty-six '1' bits decode to the jump address -1 |
| InstructionString.DetermineNegative | InstructionString.java:50-52 | on a word, the sign test holds if and only if the parsed signed immediate is negative |
| InstructionString.DetermineType | InstructionString.java:76-89 | the type is "R" exactly for opcode 0, "J" exactly for opcode 2, and "I" otherwise |
| InstructionString.GetType | InstructionString.java:72-74 | the type the constructor stores is "R" exactly for opcode 0, "J" exactly for opcode 2, and "I" otherwise |
| Binary.Unsigned | InstructionString.java:47-67 | `Long.parseLong(s, 2)` of a binary text, as the decoder applies it to the sign-extended immediate, the register fields and (in `decode`) the opcode, is below 2^len, and at least 2^(len-1) exactly when the first bit is '1' |
| Binary.MinimalBits | Computer.java:269 | the unsigned binary text has no leading zeros (just "0" for zero) and denotes the value |
| Int32.ToUnsignedString | Computer.java:269 | the text of a `long` is binary, denotes its 64 bits read unsigned (x + 2^64 for negative x), which lie below 2^64, and has no leading zeros (just "0" for zero) |
| Int32.ParseUnsignedLong | Computer.java:270 | the parsed `long` agrees with the text's value modulo 2^64 |
| Int32.UnsignedStringRoundTrip | Computer.java:268-270 | printing a `long` unsigned in binary and parsing it back gives the same `long` |
| Int32.Wrap32 | Computer.java:183 | the `int` result agrees with the exact sum modulo 2^32, and equals it when it fits |
| Int32.Wrap32Unique | Computer.java:183 | only one `int` agrees with a number modulo 2^32 |
| Int32.Unsigned32 | Computer.java:196-197 | masking with 0xffffffffL gives the unsigned value of the same 32 bits |
| Int32.And32Bits | Computer.java:209-213 | each bit of `a & b` is set exactly when it is set in both operands; the result is negative exactly when both operands are |
| Int32.Or32Bits | Computer.java:223-227 | each bit of `a \| b` is set exactly when it is set in either operand; the result is negative exactly when either operand is |
| Int32.AndZero | ComputerTest.java:148-160 | `a & 0 == 0` |
| Int32.OrZero | ComputerTest.java:163-175 | `a \| 0 == a` |
| Int32.OrTwo | ComputerTest.java:399-411 | or-ing 2 into a non-negative `int` whose bit 1 is clear adds 2 |
| Int32.OrExample | ComputerTest.java:399-411 | `65533 \| 2 == 65535`, the value the `ori` test expects |
| Instructions.TextInjective | ImmediateInstruction.java:57-85 | distinct mnemonics have distinct name strings, across all three name tables: this one, the register table (RegisterInstruction.java:66-85) and the jump table (JumpInstruction.java:43-50) |
| Instructions.RegisterName | RegisterInstruction.java:64-87 | a name exists exactly for opcode 0 with function code 8, 20, 21, 24 or 25, and it is a register mnemonic |
| Instructions.ImmediateName | ImmediateInstruction.java:57-85 | a name exists exactly for opcodes 4, 5, 8, 9, 12, 13, 23 and 43, and it is an immediate mnemonic |
| Instructions.JumpName | JumpInstruction.java:43-51 | a name exists exactly for opcode 2, and it is `jump` |
| Instructions.RegisterNamesDistinct | RegisterInstruction.java:66-85 | in the register table, different function codes get different names |
| Instructions.ImmediateNamesDistinct | ImmediateInstruction.java:57-85 | in the immediate table, different opcodes get different names |
| Instructions.NewRegister | RegisterInstruction.java:21-32 | the record keeps its word; its register fields and shift lie in [0, 31]; its function code is 6 binary characters |
| Instructions.NewImmediate | ImmediateInstruction.java:20-30 | the record keeps its word; its registers lie in [0, 31] and its unsigned immediate in [0, 65535] |
| Instructions.NewJump | JumpInstruction.java:17-24 | the record keeps its word and has the jump shape |
| Instructions.CreateInstruction | InstructionFactory.java:23-34 | the record keeps its word and has the register shape exactly for opcode 0, the jump shape exactly for opcode 2, and the immediate shape otherwise |
| Encoding.RegisterFieldsRoundTrip | InstructionString.java:28-68 | decoding a register-shape encoding gives back all six fields |
| Encoding.ImmediateFieldsRoundTrip | InstructionString.java:28-60 | decoding an immediate-shape encoding gives back the opcode, the registers and the unsigned immediate; the signed immediate is exact below 0x8000 and negative from there on |
| Encoding.JumpFieldsRoundTrip | InstructionString.java:28-36 | decoding a jump-shape encoding gives back the opcode, and the address below 2^25; from 2^25 up the address is negative |
| Encoding.RegisterWordRoundTrip | InstructionString.java:28-68 | every word is the register-shape encoding of its own decoded fields |
| Encoding.ImmediateWordRoundTrip | InstructionString.java:28-60 | every word is the immediate-shape encoding of its own decoded fields |
| Encoding.JumpWordRoundTrip | InstructionString.java:28-36 | every word is the jump-shape encoding of its opcode and its unsigned 26-bit address |
| Encoding.EncodedImmediateSigned | InstructionString.java:38-40 | the signed immediate of an encoding is `imm` below 0x8000 and `imm - 65536` from 0xC000; in between it is negative but wrong |
| Engine.AddiuStep | Computer.java:267-273 | the detour through the unsigned string leaves the register's value as it was, so `addiu` stores the wrapped sum with the unsigned immediate |
| Engine.DecodedExecutable | Computer.java:115-170 | every record the factory builds from its word passes every cast and register read of `execute` |
| Engine.StepIsTwoStages | Computer.java:115-170 | the function-code stage changes nothing for a nonzero opcode, and the opcode stage changes nothing for opcode 0, so `Step` is the two stages in order |
| Engine.Computer.constructor | Computer.java:33-37 | pc = ic = 0, ir empty, 32 zero registers, 64 zero memory words, 64 empty slots |
| Engine.Computer.Fetch | Computer.java:43-46 | ir becomes slot pc, empty exactly past the loaded instructions, and pc advances by one |
| Engine.Computer.InsertInstruction | Computer.java:78-81 | slot ic is written with the record, ic advances by one, and every other slot is unchanged |
| Engine.Computer.SetPc | Computer.java:88-90 | pc becomes the given value |
| Engine.Computer.Decode | Computer.java:100-102 | returns the word's opcode value, in [0, 63] |
| Engine.Computer.Add | Computer.java:180-185 | the state after `add` is `AddStep`: the destination gets the wrapped signed sum |
| Engine.Computer.Addu | Computer.java:195-199 | the state after `addu` is `AdduStep`: the destination gets the wrapped sum of the unsigned operands |
| Engine.Computer.And | Computer.java:209-213 | the state after `and` is `AndStep` |
| Engine.Computer.Or | Computer.java:223-227 | the state after `or` is `OrStep` |
| Engine.Computer.Jr | Computer.java:240-245 | the state after `jr` is `JrStep`: pc moves to the register's value only when it lies in [0, ic) |
| Engine.Computer.Addi | Computer.java:255-257 | the state after `addi` is `AddiStep`: the target gets the wrapped sum with the signed immediate |
| Engine.Computer.Addiu | Computer.java:267-273 | the state after `addiu` is `AddiuStep` |
| Engine.Computer.Andi | Computer.java:283-285 | the state after `andi` is `AndiStep`, with the signed immediate |
| Engine.Computer.Ori | Computer.java:295-297 | the state after `ori` is `OriStep`, with the signed immediate |
| Engine.Computer.Lw | Computer.java:310-315 | the state after `lw` is `LwStep`: a load only from a wrapped address in [0, 64) |
| Engine.Computer.Sw | Computer.java:328-332 | the state after `sw` is `SwStep`: a store only to a wrapped address in [0, 64) |
| Engine.Computer.Beq | Computer.java:346-353 | the state after `beq` is `BeqStep` |
| Engine.Computer.Bne | Computer.java:367-374 | the state after `bne` is `BneStep` |
| Engine.Computer.Jump | Computer.java:386-391 | the state after `jump` is `JumpStep`: pc moves to the address only when it lies in [0, ic) |
| Engine.Computer.Execute | Computer.java:115-170 | the state after `execute` is `Step` of the state before; ic, ir and the instruction slots are unchanged |
| ExecuteProperties.FunctionCodeAgrees | Computer.java:119-121 | reading the function code through `twosComplement` finds exactly the codes the unsigned name table lists, with the same value |
| ExecuteProperties.RegisterDispatch | Computer.java:118-138 | for opcode 0, `execute` runs the operation the record's name gives |
| ExecuteProperties.JumpDispatch | Computer.java:139-142 | for opcode 2, `execute` runs `jump` |
| ExecuteProperties.ImmediateDispatch | Computer.java:139-169 | for any other opcode, `execute` runs the operation the immediate table names, or nothing |
| ExecuteProperties.StepFollowsName | Computer.java:115-170 | for every decoded record, `execute` runs exactly the operation its mnemonic names |
| ExecuteProperties.UnnamedIsNoOp | Computer.java:115-170 | a decoded record without a name changes nothing |
| ExecuteProperties.ByNameFrame | Computer.java:180-391 | control operations change only pc, and only to a slot in [0, ic); `sw` changes one memory cell; every other operation changes only the register it writes |
| ExecuteProperties.NonControlKeepsPc | Computer.java:180-332 | a named operation that is not a branch or jump leaves pc where it was |
| ExecuteProperties.StepFrame | Computer.java:115-170 | the same frame as `ByNameFrame`, for `execute` of any decoded record |
| ExecuteProperties.AddAgreesWithAddu | Computer.java:180-199 | `add` and `addu` always store the same value |
| ExecuteProperties.NonNegativeImmediate | ImmediateInstruction.java:25-26 | with bit 16 clear, the two immediates of a decoded record are equal |
| ExecuteProperties.AddiuAgreesWithAddi | Computer.java:255-273 | when the two immediates are equal, `addiu` and `addi` store the same value |
| ExecuteProperties.StoreThenLoad | Computer.java:310-332 | `lw` from the address `sw` wrote reads back the stored register |
| ExecuteProperties.BeqBneOpposite | Computer.java:346-374 | with the same fields, `beq` branches exactly when registers are equal and `bne` exactly when they differ, both only to targets in [0, ic) |
| Scenarios.ImmediateWordFields | ImmediateInstruction.java:20-30 | the record built from an encoded immediate-shape word is decoded and has the fields it was built from |
| Scenarios.RegisterWordFields | RegisterInstruction.java:21-32 | the record built from an encoded register-shape word is decoded and has the fields it was built from |
| Scenarios.JumpWordFields | JumpInstruction.java:17-24 | the record built from an encoded jump-shape word is decoded and has the address it was built from |
| Scenarios.Initial | Computer.java:33-37 | a new computer's state: every register and memory word zero, pc 0 |
| Scenarios.Load | ComputerTest.java:228-230 | inserting a program into a new computer fills its first slots in order and leaves the state initial |
| Scenarios.RunAdvance | Computer.java:43-46 | while pc is on the program, the next cycle runs the record there by `Step` on the advanced pc, and that record can be executed |
| Scenarios.FetchExecute | ComputerTest.java:232-233 | `fetch` then `execute` runs the record in slot pc, by `Step`, on the advanced program counter |
| Scenarios.Cycle | ComputerTest.java:231-234 | one `fetch` then `execute` moves the computer from `Run(prog, n)` to `Run(prog, n + 1)` |
| Scenarios.RunCycles | ComputerTest.java:231-234 | `cycles` rounds of `fetch` and `execute` reach `Run(prog, cycles)` |
| Scenarios.RunProgram | ComputerTest.java:223-237 | loading a program and running it for `cycles` rounds reaches `Run(prog, cycles)` |
| Scenarios.RunPcInRange | Computer.java:240-391 | the program counter never leaves [0, number of loaded instructions] |
| Scenarios.JrNegativeTarget | ComputerTest.java:86-100 | `jr` to a negative register value is not taken |
| Scenarios.JrTarget | ComputerTest.java:103-117 | `jr` to a non-negative register value is taken only to a loaded slot |
| Scenarios.JrToStart | ComputerTest.java:74-83 | `jr $0` on a new computer jumps to slot 0 |
| Scenarios.AddOfZeros | ComputerTest.java:121-130 | `add $0, $0, $0` on a new computer leaves $0 zero |
| Scenarios.AdduDoubles | ComputerTest.java:133-145 | `addu $0, $0, $0` after `addi $0, $0, imm` gives `2 * imm` |
| Scenarios.AndWithZero | ComputerTest.java:148-160 | `and` with a zero register gives zero |
| Scenarios.OrWithZero | ComputerTest.java:163-175 | `or` with a zero register copies the other register |
| Scenarios.UnlistedFunctionCode | ComputerTest.java:178-186 | a function code outside the table gives no name, and executing it changes nothing but pc's advance |
| Scenarios.JumpAlone | ComputerTest.java:189-219 | a lone `jump` is taken only to slot 0; any other address, negative ones included, is skipped |
| Scenarios.BeqAfterTwoAddius | ComputerTest.java:223-288 | after two `addiu`s, `beq` is taken exactly when the registers are equal and the target is a loaded slot |
| Scenarios.BneAfterTwoAddius | ComputerTest.java:293-358 | after two `addiu`s, `bne` is taken exactly when the registers differ and the target is a loaded slot |
| Scenarios.AddiAlone | ComputerTest.java:361-369 | `addi` stores the immediate sign-extended: exact below 0x8000, `imm - 65536` from 0xC000, negative from 0x8000 |
| Scenarios.AddiuAlone | ComputerTest.java:372-380 | `addiu` stores the immediate zero-extended |
| Scenarios.AndiClears | ComputerTest.java:383-396 | `andi $0, $0, 0` clears the register |
| Scenarios.OriCombines | ComputerTest.java:399-411 | `ori` after `addiu` leaves `x \| y` in the register |
| Scenarios.LoadAfterStore | ComputerTest.java:414-430 | inside memory, `sw` stores at `x + d` and `lw` reads the stored value back |
| Scenarios.LoadOutside | ComputerTest.java:433-461 | `lw` from an address outside memory leaves the register as `addi` set it |
| Scenarios.StoreInside | ComputerTest.java:464-476 | `sw` changes memory only at `x + d` |
| Scenarios.StoreOutside | ComputerTest.java:479-506 | `sw` to an address outside memory leaves memory untouched |

## Left out

- `Simulator.java` (reading the program file, console output and its driver loop) is not part of
  this model. It is input and output, not part of the engine.
- `ComputerInstance.java` is not part of this model. It is a second, separately written copy of
  the engine that the tests do not use.
- `displayRegisters`, `displayInstructions`, `displayMemory` and the three `toString` methods are
  left out. They only format text for the console.
- The factory plumbing is left out: the singleton holder, the per-shape factories and the
  `Instruction` and `AbstractInstructionFactory` interfaces. Their only behaviour is the
  dispatch that `CreateInstruction` models.
- `Int32.And32`, `Int32.Or32`: `&` and `|` are computed bit by bit on the unsigned 32-bit value,
  not with `bv32`. `And32Bits` and `Or32Bits` prove their bitwise meaning.
- Engine.Computer.Execute: requires a record whose shape matches its opcode (`Executable`). The
  Java code would throw a `ClassCastException` on any other record. `DecodedExecutable` shows
  that every record the factory builds satisfies this requirement.
- Engine.Computer.Fetch: requires `pc < 64`. Java would throw at a larger index.
- Engine.Computer.InsertInstruction: requires `ic < 64`. Java would throw on a full instruction
  array.
- Scenarios.Cycle: off the loaded program it does nothing, where Java's `fetch` would yield no
  record and `execute` would throw. This matches `Run`.
- Scenarios.Run: stops changing the state once pc is off the loaded program. There `fetch`
  yields no record and `execute` would throw.
- `Engine.Machine.pc` is an unbounded integer. The class field is an `int32`, and `RunPcInRange`
  shows that the value always lies in [0, 64].
- Scenarios: the test programs are generalised over the immediates they use. The instruction
  records are described by the fields decoded from their words (`ImmediateFields`,
  `RegisterFields`, `JumpFields`), not by the test's literal strings. `ImmediateWordFields`,
  `RegisterWordFields` and `JumpWordFields` link the two.
- Scenarios.LoadOutside: excludes immediates in [0x8000, 0xC000). For those, the signed
  immediate is a negative number other than the two's complement value, and the lemma does not
  bound the address.
- Scenarios.StoreOutside: excludes immediates in [0x8000, 0xC000), for the same reason as
  `LoadOutside`.
- Scenarios.OriCombines: requires the `ori` immediate below 0x8000, where the signed and
  unsigned immediates agree.
