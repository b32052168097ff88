# FRISC emulator core in Dafny

This project models the core of `friscjs.js`, a JavaScript emulator for the
FRISC teaching processor, and proves what that core does.  The core has five
parts:

- **Bit-string helpers** `convertIntToBinary`, `convertBinaryToInt`,
  `getBitString` and `extend` (module `BitStrings`).
- **Memory `MEM`**: byte, half-word and word reads and writes, little-endian,
  and `reset` (module `Mem`, class `Mem.Memory`).
- **Flags and conditions**: `_setFlag`, `_getFlag`, `_testCond`
  (module `Flags`).
- **The decoder `_decode`** with its tables `_instructionMap`, `_regMap` and
  `_conditionMap` (module `Decoder`).
- **The handlers `_i`, `performCycle` and `reset`**.  Module `Handlers` states
  each handler as a pure function from one machine `State` to the next.
  Module `HandlerLaws` proves what those functions amount to.  Module `Cpus`
  holds the class `Cpu`, whose fields are the register object `_r`.  Its
  methods change those fields and the shared `Memory` in the order the
  JavaScript does, and each method is proved to reach the state that its
  `Handlers` function describes.  `HandleSub` leaves out the negated operand
  and carry, and the carries computed from them, that SUB computes and never
  uses.  ADD and ADC share one body, `AddCarrying`.

JavaScript numbers are modelled as unbounded integers (module `JsNum`).  The
operators `& | ^ ~ << >>` are defined the way ECMAScript defines them on
integers: ToInt32 of each operand, the shift count taken modulo 32, and a
signed 32-bit result.  Registers keep any integer the code stores in them.
For example, `pc += 4` is never masked, and MOVE stores immediates unmasked.

The model follows the code wherever the code and the emulator's documented
intent differ:

- Handlers store `res & 0xFFFFFFFF`, which in JavaScript is a signed 32-bit
  value, not one in 0 .. 2^32-1.
- ADD and ADC take the carry into bit 31 from 27-bit masks (`0x7FFFFFF`), so
  that carry is always 0.  C and V both come out as "both operands are
  negative".  ADD(0x7FFFFFFF, 1) therefore clears V.
- SUB and CMP set C and V from `res > 0xFFFFFFFF`.
- SHL and ROTL never set C, and ROTL is SHL.
- SHR and ROTR use the arithmetic `>>`.  SHR overwrites C with "the result
  is 0" and leaves Z alone.
- ASHR stores its source unshifted.
- MOVE into `sr` replaces the whole of `sr` with the low byte of the source.
- MOVE never decodes `sr` as source or destination, and RET never decodes
  RETI or RETN: the tests compare two-character strings with `"1"`.
- The immediate form of LOAD and STORE addresses 0.
- STOREH and STOREB write a whole word.
- POP reads at `r7 & 3`, and PUSH stores `r[src] & 3`.
- `_UGT` is "not C or not Z".
- RETN sets no bit, because `_f.IIF` does not exist.  It only turns `sr` into `sr | undefined`, its signed 32-bit value.

## Model

| member | source | states |
|---|---|---|
| JsNum.ToUint32 | friscjs.js:407 | ECMAScript ToUint32: a number below 2^32, equal to x mod 2^32 (`Uint32IsMod`) |
| JsNum.ToInt32 | friscjs.js:407 | ECMAScript ToInt32: a signed 32-bit value, x itself for every signed 32-bit x (`Int32Id`); `x & 0xFFFFFFFF` is ToInt32(x) (`AndAllOnes`) |
| JsNum.And | friscjs.js:151-153 | `a & b`: a signed 32-bit value whose bit j is set exactly when bit j of both operands is (`BitAnd`) |
| JsNum.Or | friscjs.js:147-149 | `a \| b`: a signed 32-bit value whose bit j is set when bit j of either operand is (`BitOr`) |
| JsNum.Xor | friscjs.js:531-540 | `a ^ b`: a signed 32-bit value whose bit j is set when the operands' bits j differ (`BitXor`) |
| JsNum.Not | friscjs.js:147-149 | `~a`: its 32-bit pattern is the complement of that of a (`NotPattern`, `BitNot`) |
| JsNum.Shl | friscjs.js:72-74 | `a << n`: a signed 32-bit value; `b << 8` is 256·b for a byte (`ShlByte`) and `w << 16` is ToInt32(65536·w) for a half-word (`ShlHalf`) |
| JsNum.Sar | friscjs.js:87-90 | `a >> n`: a signed 32-bit value with the sign of ToInt32(a), which is ToInt32(a) halved n times for 0 ≤ n < 32 (`SarSmall`) |
| BitStrings.UnsignedValue | friscjs.js:17-29 | the binary value of a digit string, most significant first, below 2^\|s\| |
| BitStrings.BinaryToInt | friscjs.js:17-29 | `convertBinaryToInt` as a function; `TwosComplement`, `SignedWindow` and the round trips state its value |
| BitStrings.GetBitString | friscjs.js:32-40 | `getBitString` as a function; `GetBitStringWindow` states its length, bits and value |
| BitStrings.Extended | friscjs.js:43-52 | `extend` as a function; `ExtendNeverWidens` states when it pads and how far |
| BitStrings.IntToBinary | friscjs.js:6-14 | `convertIntToBinary(v, n)` has exactly n characters |
| BitStrings.ConvertIntToBinary | friscjs.js:6-14 | the loop fills the n characters from the right with the bits `2^i & value`, giving `IntToBinary` |
| BitStrings.ConvertBinaryToInt | friscjs.js:17-29 | the loop sums the digits after the sign (when signed), then negates as the code does, giving `BinaryToInt` |
| BitStrings.Extend | friscjs.js:43-52 | the loop prepends `|s| - n` copies of the prefix, giving `Extended` |
| BitStrings.IntToBinaryWindow | friscjs.js:6-14 | character k of `convertIntToBinary(v, n)` is bit n-1-k of ToInt32(v), for n ≤ 32 |
| BitStrings.IntToBinaryValue | friscjs.js:6-29 | reading `convertIntToBinary(v, n)` back unsigned gives the n low bits of ToUint32(v) |
| BitStrings.GetBitStringWindow | friscjs.js:32-40 | `getBitString(x, s, e)` has e-s+1 characters, shows bits e down to s of x, and reads back as that bit field |
| BitStrings.TwosComplement | friscjs.js:17-29 | `convertBinaryToInt` unsigned is the binary value; signed, it subtracts 2^|s| when the first character is '1' |
| BitStrings.UnsignedRoundTrip | friscjs.js:6-29 | `convertBinaryToInt(convertIntToBinary(v, w), 0) == v` for 0 ≤ v < 2^w, w ≤ 32 |
| BitStrings.SignedRoundTrip | friscjs.js:6-29 | `convertBinaryToInt(convertIntToBinary(v, w), 1) == v` for -2^(w-1) ≤ v < 2^(w-1), 1 ≤ w ≤ 32 |
| BitStrings.ExtendNeverWidens | friscjs.js:43-52 | `extend(s, n, _)` is s whenever |s| ≤ n; otherwise it has 2|s|-n characters and ends with s |
| BitStrings.SignedWindow | friscjs.js:17-29 | a bit window read signed is the field minus 2^width when its top bit is set, within -2^(w-1) .. 2^(w-1)-1 |
| BitStrings.ExtendedField | friscjs.js:32-52 | `convertBinaryToInt(extend(getBitString(x, s, e), 32, 1), 1)` is the two's-complement value of bits s..e |
| BitStrings.Immediate20 | friscjs.js:224-226 | a decoded 20-bit immediate is bits 0-19 minus 2^20 when bit 19 is set |
| BitStrings.Immediate20Range | friscjs.js:252-254 | a decoded 20-bit immediate lies in -2^19 .. 2^19-1 |
| Mem.ReadByte | friscjs.js:67-69 | `readb` on a memory image: a byte, 0 for an unset cell; `WriteByteThenRead` and `ReadOther` state it against writes |
| Mem.ReadHalf | friscjs.js:72-74 | `readw` on an image: `ReadHalfBytes` shows it is the little-endian half-word in 0 .. 0xFFFF |
| Mem.ReadWord | friscjs.js:77-79 | `read` on an image: `ReadWordHalves` shows it is the signed little-endian word |
| Mem.WriteByte | friscjs.js:82-84 | `writeb` on an image; `WriteByteThenRead` states what reads see after it |
| Mem.WriteHalf | friscjs.js:87-90 | `writew` on an image; `WriteHalfBytes` and `WriteHalfThenRead` state what reads see after it |
| Mem.WriteWord | friscjs.js:93-96 | `write` on an image; `WriteWordBytes`, `WriteWordFrame` and `WriteWordThenRead` state its bytes, its footprint and its read-back |
| Mem.Zeroed | friscjs.js:99-105 | the image `reset` leaves; `ZeroedReadsZero` states that every byte and word reads 0 |
| Mem.Loaded | friscjs.js:108-132 | the image a program load leaves; `LoadedReads` states what every byte reads |
| Mem.Memory.constructor | friscjs.js:63-64 | a new memory holds no cells |
| Mem.Memory.Readb | friscjs.js:67-69 | `readb` returns `0xFF & _memory[addr]`, 0 for an unset cell (`ReadByte`) |
| Mem.Memory.Readw | friscjs.js:72-74 | `readw` is `readb(a) + (readb(a+1) << 8)` (`ReadHalf`) |
| Mem.Memory.Read | friscjs.js:77-79 | `read` is `readw(a) + (readw(a+2) << 16)` (`ReadWord`) |
| Mem.Memory.Writeb | friscjs.js:82-84 | `writeb` stores `0xFF & val` at addr and nothing else |
| Mem.Memory.Writew | friscjs.js:87-90 | `writew` is `writeb(a, v)` then `writeb(a+1, v >> 8)` |
| Mem.Memory.Write | friscjs.js:93-96 | `write` is `writew(a, v)` then `writew(a+2, v >> 16)` |
| Mem.Memory.Reset | friscjs.js:99-105 | the loop leaves exactly the cells 0 .. 256·1024-1 set, each to 0 |
| Mem.Memory.Load | friscjs.js:108-132 | after loading a program of byte codes, cells 0 .. max(len, 256·1024)-1 hold the low byte of each code, then 0 |
| Mem.ReadStored | friscjs.js:67-84 | the byte `writeb` stores reads back as the low 8 bits of the value |
| Mem.WriteByteThenRead | friscjs.js:67-84 | after `writeb(a, v)`, `readb(a) == v & 0xFF` and every other byte is unchanged |
| Mem.ReadOther | friscjs.js:67-84 | setting one cell leaves the bytes read at every other address alone |
| Mem.WriteWordBytes | friscjs.js:82-96 | after `write(a, v)`, `readb(a+k)` is byte k of v, for k = 0..3 |
| Mem.ByteFields | friscjs.js:87-96 | the low bytes of `v`, `v >> 8`, `v >> 16` and `(v >> 16) >> 8` are bytes 0..3 of v |
| Mem.WriteWordFrame | friscjs.js:93-96 | `write(a, v)` touches exactly the cells a .. a+3 |
| Mem.WriteHalfBytes | friscjs.js:87-90 | after `writew(a, v)`, `readb(a)` and `readb(a+1)` are the low byte of v and of `v >> 8` |
| Mem.ReadHalfBytes | friscjs.js:72-74 | `readw(a)` is `readb(a) + 256·readb(a+1)`, so it lies in 0 .. 0xFFFF |
| Mem.WordValue | friscjs.js:77-79 | `lo + (hi << 16)` is ToInt32 of `lo + 65536·hi` for two half-words |
| Mem.ReadWordHalves | friscjs.js:77-79 | `read(a)` is the signed 32-bit value of its two half-words |
| Mem.HalfPair | friscjs.js:72-74 | two adjacent byte fields make the 16-bit field they span |
| Mem.FieldHalves | friscjs.js:87-96 | the two 16-bit fields of v make ToUint32(v) |
| Mem.LowHalves | friscjs.js:87-96 | a 32-bit number is its low half plus 65536 times its high half |
| Mem.WriteHalfThenRead | friscjs.js:72-90 | `readw(a)` after `writew(a, v)` is `v & 0xFFFF` |
| Mem.WriteWordThenRead | friscjs.js:72-96 | `read(a)` after `write(a, v)` is ToInt32(v) |
| Mem.ReadRanges | friscjs.js:67-79 | `readw` gives 0 .. 0xFFFF and `read` gives a signed 32-bit value |
| Mem.ZeroedReadsZero | friscjs.js:99-105 | after `reset` every byte and every word reads 0 |
| Mem.LoadedReads | friscjs.js:117-124 | after loading, byte i reads `b[i] & 0xFF` inside the program and 0 elsewhere |
| Flags.SetFlag | friscjs.js:147-149 | `_setFlag` on `sr`; `SetFlagBits`, `GetAfterSet` and `GetAfterSetOther` state that it sets one bit and keeps the rest |
| Flags.GetFlag | friscjs.js:151-153 | `_getFlag` on `sr`; `GetFlagBit` states that it is the flag's bit as 0 or 1 |
| Flags.TestCond | friscjs.js:155-201 | `_testCond` on `sr`; `ComplementaryConditions`, `UgtAsWritten` and `SignedConditions` state what each condition tests |
| Flags.GetFlagBit | friscjs.js:151-153 | `_getFlag(2^i)` is bit i of `sr` as 0 or 1 |
| Flags.SetFlagBits | friscjs.js:147-149 | `_setFlag(2^i, v)` sets bit i to v and leaves every other bit of `sr` |
| Flags.GetAfterSet | friscjs.js:147-153 | `_getFlag(f)` after `_setFlag(f, v)` is 1 if v holds, else 0 |
| Flags.GetAfterSetOther | friscjs.js:147-153 | `_setFlag` on one flag leaves `_getFlag` of every other flag |
| Flags.FlagBits | friscjs.js:144-153 | N, C, V and Z are bits 0, 1, 2 and 3 of `sr` |
| Flags.ComplementaryConditions | friscjs.js:155-201 | NN, NC, NV, NZ, SGE and SGT are the negations of N, C, V, Z, SLT and SLE |
| Flags.UleUgtOverlap | friscjs.js:176-181 | with C set and Z clear, both `_ULE` and `_UGT` hold |
| Flags.UgtAsWritten | friscjs.js:179-181 | `_UGT` holds unless both C and Z are set |
| Flags.SignedConditions | friscjs.js:182-195 | SLT is N ≠ V, SLE adds Z, SGT is N = V with Z clear |
| Cpus.Cpu.SetFlag | friscjs.js:147-149 | `_setFlag` changes `sr` only, to `sr \| flag` or `sr & ~flag` |
| Cpus.Cpu.GetFlag | friscjs.js:151-153 | `_getFlag` returns 0 or 1, as `Flags.GetFlag` |
| Cpus.Cpu.TestCond | friscjs.js:155-201 | the chain of tests on the condition string returns `Flags.TestCond` |
| Decoder.Decode | friscjs.js:203-369 | `_decode` on the strings of bit windows; `DecodeAgrees` shows it equal to the field-by-field `ReferenceDecode`, and `DecodeOpcode` and `DecodeFails` state its op and exactly when it fails |
| Decoder.DecodeArgs | friscjs.js:212-366 | the argument part of `_decode`, per opcode; `ArgsAgree` and the `*ArgsAgree` and `*Shapes` lemmas state each layout |
| Decoder.ReferenceDecode | friscjs.js:203-369 | the instruction formats read field by field without strings; `ReferenceArgsFail` and `ReferenceNumbers` state its failures and numbers |
| Decoder.ReferenceArgs | friscjs.js:212-366 | the argument layouts read field by field; `ConditionalArgsPresence` and `UnconditionalArgsPresent` state when they exist |
| Decoder.OpOfCode | friscjs.js:761-791 | `_instructionMap` indexed by the 5-bit code; `OpcodeGaps` states which codes are unmapped and which are conditional |
| Decoder.CondOfCode | friscjs.js:793-809 | `_conditionMap` indexed by the 4-bit code; `ConditionGap` states that only 1111 is unmapped |
| Decoder.RegisterField | friscjs.js:242-244 | a register field looked up in `_regMap`; `RegisterValue` shows it is the field's value |
| Decoder.Immediate | friscjs.js:252-254 | the extended, signed bits 0-19; `ImmediateValue` states its value and range |
| Decoder.RegOrImmediate | friscjs.js:246-255 | the second operand chosen by bit 26; `OperandValue` states it |
| Decoder.CondField | friscjs.js:281-282 | bits 22-25 looked up in `_conditionMap`; `ConditionField` states it |
| Decoder.RegisterKey | friscjs.js:242-244 | every 3-bit string is a key of `_regMap`, and it maps to the register that field names |
| Decoder.RegisterValue | friscjs.js:242-244 | the register looked up in `_regMap` is the 3-bit field read as a number |
| Decoder.OpcodeField | friscjs.js:204-205 | the `_instructionMap` lookup of bits 27-31 is the opcode table applied to that 5-bit field |
| Decoder.OpcodeBits | friscjs.js:761-791 | looking up five digits in `_instructionMap` is the opcode table at their value |
| Decoder.OpTable00 | friscjs.js:761-791 | the `_instructionMap` entries 00xxx |
| Decoder.OpTable01 | friscjs.js:761-791 | the `_instructionMap` entries 01xxx, 01110 and 01111 missing |
| Decoder.OpTable10 | friscjs.js:761-791 | the `_instructionMap` entries 10xxx |
| Decoder.OpTable11 | friscjs.js:761-791 | the `_instructionMap` entries 11xxx, 11100 .. 11110 missing |
| Decoder.RegTable | friscjs.js:143 | `_regMap` maps each 3-digit string to its value |
| Decoder.CondTable0 | friscjs.js:793-809 | the `_conditionMap` entries 0xxx |
| Decoder.CondTable1 | friscjs.js:793-809 | the `_conditionMap` entries 1xxx, 1111 missing |
| Decoder.ConditionField | friscjs.js:281-282 | the `_conditionMap` lookup of bits 22-25 is the condition table at that field |
| Decoder.SingleBit | friscjs.js:246 | `getBitString(x, i, i)` is the one digit of bit i |
| Decoder.TwoBits | friscjs.js:322-323 | `getBitString(x, i, i+1)` is never `"1"` |
| Decoder.ImmediateValue | friscjs.js:252-254 | the decoded immediate is the signed value of bits 0-19, in -2^19 .. 2^19-1 |
| Decoder.OperandValue | friscjs.js:246-255 | the second operand is the register at 17-19 when bit 26 is 0, else the immediate |
| Decoder.ArgsAgree | friscjs.js:212-366 | the string-based argument decoding equals the bit-field reference decoding, for every opcode |
| Decoder.MoveArgsAgree | friscjs.js:212-240 | MOVE's argument decoding equals the reference |
| Decoder.AluArgsAgree | friscjs.js:241-279 | ALU and CMP argument decoding equals the reference |
| Decoder.AluShapes | friscjs.js:241-279 | ALU words decode to `[reg 20-22, bit 26 ? imm20 : reg 17-19, reg 23-25]`; CMP drops the destination |
| Decoder.ConditionalArgsAgree | friscjs.js:280-365 | JP, CALL, JR, RET and HALT argument decoding equals the reference |
| Decoder.JumpArgsAgree | friscjs.js:280-300 | JP and CALL argument decoding equals the reference |
| Decoder.JrArgsAgree | friscjs.js:301-314 | JR argument decoding equals the reference |
| Decoder.RetArgsAgree | friscjs.js:315-328 | RET argument decoding equals the reference |
| Decoder.HaltArgsAgree | friscjs.js:357-365 | HALT argument decoding equals the reference |
| Decoder.MemoryArgsAgree | friscjs.js:329-356 | load, store, POP and PUSH argument decoding equals the reference |
| Decoder.MemoryShapes | friscjs.js:329-351 | bit 26 set gives `[reg 20-22, imm20, reg 23-25]`; clear gives `[imm20, 0, reg 23-25]` |
| Decoder.DecodeAgrees | friscjs.js:203-369 | `_decode` equals the reference decoder on every word |
| Decoder.DecodeOpcode | friscjs.js:203-210 | `op` is the opcode table at bits 27-31, and a missing opcode gives `args = null` too |
| Decoder.DecodeFails | friscjs.js:203-285 | decoding fails exactly for opcodes 01110, 01111, 11100, 11101, 11110, or for a conditional opcode with condition field 1111 |
| Decoder.OpcodeGaps | friscjs.js:761-791 | exactly the codes 14, 15, 28, 29, 30 are unmapped; the conditional opcodes are 24-27 and 31 |
| Decoder.ConditionGap | friscjs.js:793-809 | exactly the condition code 15 is unmapped |
| Decoder.ReferenceArgsFail | friscjs.js:280-366 | arguments are null exactly for a conditional opcode with an unmapped condition |
| Decoder.ConditionalArgsPresence | friscjs.js:280-366 | a conditional opcode has arguments iff its condition is mapped |
| Decoder.UnconditionalArgsPresent | friscjs.js:212-356 | every other opcode always has arguments |
| Decoder.MoveNeverStatusRegister | friscjs.js:212-237 | MOVE never decodes `sr` as its source or its destination |
| Decoder.ReturnNeverReti | friscjs.js:322-323 | RET always decodes `isRETI = isRETN = false` |
| Decoder.DecodedNumbers | friscjs.js:212-351 | every number `_decode` produces (MOVE, ALU and CMP operands, JP and CALL targets, the JR offset, the immediate-form address) is the word's signed 20-bit immediate, and a memory offset is that or 0; the immediate lies in -2^19 .. 2^19-1 |
| Decoder.ReferenceNumbers | friscjs.js:212-351 | every number in the reference argument lists is the signed 20-bit field, and a memory offset is that or 0 |
| Handlers.ValueOf | friscjs.js:384 | `typeof src2 === 'number' ? src2 : this._r[src2]` |
| Handlers.ArithFlags | friscjs.js:402-405 | the four closing `_setFlag` calls; `ArithFlagsRead` states the flags they leave |
| Handlers.CarryOut | friscjs.js:389-400 | the carry and overflow of the 27-bit-mask adder; `CarryFromSigns` (carry-in 0 or 1) and `CarryOutBorrow` (carry-in -1) state them |
| Handlers.AddWithCarry | friscjs.js:382-435 | the body of ADD and ADC; `AddWithCarryResult` states its result |
| Handlers.ExecAdd | friscjs.js:382-408 | ADD; `AddResult` states its result |
| Handlers.ExecAdc | friscjs.js:410-436 | ADC; `AdcResult` states its result |
| Handlers.ExecSub | friscjs.js:438-467 | SUB; `SubResult` states its result |
| Handlers.ExecSbc | friscjs.js:469-498 | SBC; `SbcResult` states its result |
| Handlers.SbcCarryOut | friscjs.js:476-496 | SBC's adder on the negated operand and carry; `SbcFlagValues` states what it gives |
| Handlers.ExecCmp | friscjs.js:500-507 | CMP; `CmpConditions` states its result |
| Handlers.ExecAnd | friscjs.js:509-518 | AND; `LogicResult` states its result |
| Handlers.ExecOr | friscjs.js:520-529 | OR; `LogicResult` states its result |
| Handlers.ExecXor | friscjs.js:531-540 | XOR; `LogicResult` states its result |
| Handlers.ExecShl | friscjs.js:542-551 | SHL; `ShlResult` states its result |
| Handlers.ExecShr | friscjs.js:553-567 | SHR; `ShrResult` states its result |
| Handlers.ExecAshr | friscjs.js:569-585 | ASHR; `AshrResult` states its result |
| Handlers.ExecRotl | friscjs.js:587-599 | ROTL; `RotlIsShl` states its result |
| Handlers.ExecRotr | friscjs.js:601-615 | ROTR; `RotrResult` states its result |
| Handlers.ExecMove | friscjs.js:617-625 | MOVE; `MoveResult` and `MoveStatusRegister` state its result |
| Handlers.EffectiveAddress | friscjs.js:628 | the effective address of a load or store; `ImmediateFormAddressesZero` and `RegisterFormAddress` state it for decoded words |
| Handlers.ExecLoad | friscjs.js:627-631 | LOAD; `LoadResult` states its result |
| Handlers.ExecLoadh | friscjs.js:633-637 | LOADH; `LoadhResult` states its result |
| Handlers.ExecLoadb | friscjs.js:639-642 | LOADB; `LoadbResult` states its result |
| Handlers.ExecStore | friscjs.js:644-648 | STORE; `StoreResult` states its result |
| Handlers.ExecStoreh | friscjs.js:650-654 | STOREH; `StorehResult` states its result |
| Handlers.ExecStoreb | friscjs.js:656-659 | STOREB; `StorebResult` states its result |
| Handlers.ExecPop | friscjs.js:372-375 | POP; `PopResult` states its result |
| Handlers.ExecPush | friscjs.js:377-380 | PUSH; `PushResult` states its result |
| Handlers.ExecJp | friscjs.js:661-665 | JP; `JpResult` states its result |
| Handlers.ExecJr | friscjs.js:667-671 | JR; `JrResult` and `JrRelative` state its result |
| Handlers.ExecCall | friscjs.js:673-679 | CALL; `CallResult` states its result |
| Handlers.ExecRet | friscjs.js:681-692 | RET; `RetResult` and `RetStatus` state its result |
| Handlers.Return | friscjs.js:683-690 | the taken branch of RET; `RetResult` and `RetStatus` state its pc, r7, memory and status |
| Handlers.ReturnStatus | friscjs.js:686-690 | RETI's and RETN's status updates; `RetStatus` states them |
| Handlers.ExecHalt | friscjs.js:694-698 | HALT; `HaltResult` states its result |
| Handlers.Fits | friscjs.js:743 | the argument shape each `_i` handler takes; `DecodeFits` shows `_decode` only yields these |
| Handlers.Execute | friscjs.js:743 | `_i[op].apply(this, args)`; `OnlyJumpsMovePc` states that only jumps move pc |
| Handlers.Step | friscjs.js:743-744 | a handler, then `pc += 4`; `CycleAdvances` and `CycleJump` state where pc ends |
| Handlers.Cycle | friscjs.js:730-754 | `performCycle`; `CycleAdvances` and `CycleRejects` state when it executes and when it throws |
| Handlers.Reset | friscjs.js:756-759 | `reset`; `ResetResult` states its result |
| Handlers.DecodeFits | friscjs.js:203-369 | a successful decode yields arguments of the shape its handler takes |
| Handlers.ReferenceFits | friscjs.js:212-366 | the reference decoder yields arguments of the shape each handler takes |
| Handlers.ArithFlagsRead | friscjs.js:402-405 | the four closing `_setFlag` calls leave C and V as given, N the sign and Z the zero test of ToInt32(res), and every bit from 4 up |
| Handlers.CarryFromSigns | friscjs.js:389-400 | with a carry-in of 0 or 1, C and V are both "both operands are negative" |
| Handlers.NoCarryInto31 | friscjs.js:389-392 | the 27-bit masks never carry into bit 31 |
| Handlers.CarryFlags | friscjs.js:389-405 | the flags of an addition with carry 0 or 1: C = V = both negative, N and Z from the result |
| Handlers.AdderFlags | friscjs.js:382-405 | the same, for the result `a + b + carry` |
| Handlers.AddWithCarryResult | friscjs.js:382-435 | ADD and ADC store ToInt32(a+b+carry) and set C = V = both negative, N, Z from it |
| Handlers.AddResult | friscjs.js:382-408 | ADD stores ToInt32(a+b); C = V = both operands negative; N, Z from the result |
| Handlers.AdcResult | friscjs.js:410-435 | ADC does the same with the C flag added in |
| Handlers.SubResult | friscjs.js:438-467 | SUB stores ToInt32(a-b); C = V = (a-b > 0xFFFFFFFF); N, Z from the result |
| Handlers.SubtractorFlags | friscjs.js:461-464 | the flags of SUB and CMP, read back |
| Handlers.CmpConditions | friscjs.js:500-507 | CMP sets the flags of a-b as SUB does (C = V = `a-b > 0xFFFFFFFF`, N sign, Z zero, bits 4-31 kept) and changes nothing else; Z, N and C then test "equal", "negative difference" and `a-b > 0xFFFFFFFF` |
| Handlers.SbcResult | friscjs.js:469-498 | SBC stores ToInt32(a-b-C), sets N and Z from it, and C and V as `SbcCarry` says: "a and -b both negative" when C was clear, `BorrowCarry` when it was set |
| Handlers.SbcStores | friscjs.js:469-498 | SBC stores ToInt32(a-b-C) and changes nothing but `dest` and `sr` |
| Handlers.SbcFlags | friscjs.js:476-495 | SBC's flags for either value of C beforehand, as in `SbcResult` |
| Handlers.SbcFlagsFromSum | friscjs.js:476-495 | with a carry of 0, SBC's flags are those of adding the negated operand |
| Handlers.SbcStatus | friscjs.js:476-495 | SBC's new `sr` is the four flag updates with the adder's carry and overflow on a, -b and -C |
| Handlers.SbcFlagValues | friscjs.js:469-498 | for either value of C, SBC's flags are C and V from `SbcCarry`, N the sign and Z the zero test of ToInt32(a - b - C) |
| Handlers.SbcFlagsWithBorrow | friscjs.js:476-495 | with C set, the carry-in is -1 and C and V are `BorrowCarry` of a and -b |
| Handlers.CarryOutBorrow | friscjs.js:389-400 | with a carry-in of -1, the adder carries into bit 31 exactly when the 27 low bits of both addends are 0 |
| Handlers.BorrowIntoBit31 | friscjs.js:480-482 | `((t1 + t2 - 1) >> 31) & 1` for two 27-bit numbers is 1 exactly when both are 0 |
| Handlers.SbcBorrowFromZero | friscjs.js:469-498 | with C set, SBC of 0 - 0 stores -1, clears C, sets V and N, and clears Z |
| Handlers.BorrowFromZero | friscjs.js:476-496 | SBC's C and V for 0 - 0 with C set are "no carry" and "overflow" |
| Handlers.Negation | friscjs.js:476-477 | `(~x + 1) & 0xFFFFFFFF` is ToInt32(-ToInt32(x)) |
| Handlers.LogicResult | friscjs.js:509-540 | AND, OR and XOR store the JavaScript result, clear C and V, and set N and Z from it |
| Handlers.LogicFlags | friscjs.js:512-517 | for a 32-bit result `res & 0xFFFFFFFF` is res, and the flags read back as C = V = 0 |
| HandlerLaws.HighMaskWraps | friscjs.js:592 | `0xFFFFFFFF00000000` converts to 0 under ToUint32 |
| HandlerLaws.AndHighMask | friscjs.js:592 | `x & 0xFFFFFFFF00000000` is always 0 |
| HandlerLaws.ShiftBy32 | friscjs.js:570-577 | `x << 32` and `x >> 32` are ToInt32(x) |
| HandlerLaws.SarOfInt32 | friscjs.js:556 | `>>` sees only ToInt32 of its left operand |
| HandlerLaws.ShlResult | friscjs.js:542-551 | SHL stores `a << b`, clears C and V, and sets N, Z from it |
| HandlerLaws.ShiftFlags | friscjs.js:545-548 | the flag updates of the shifts, read back |
| HandlerLaws.RotlIsShl | friscjs.js:587-599 | ROTL leaves exactly the state SHL leaves |
| HandlerLaws.ShrFlags | friscjs.js:558-564 | SHR's flags: C = "result is 0", V clear, N the sign, Z unchanged |
| HandlerLaws.ShrResult | friscjs.js:553-567 | SHR stores `a >> b` (arithmetic) with those flags |
| HandlerLaws.AshrResult | friscjs.js:569-585 | ASHR stores ToInt32(a) unshifted; C = N = its sign; Z its zero test |
| HandlerLaws.AshrParts | friscjs.js:570-578 | ASHR's sign term is 0, its result ToInt32(a), its C the sign of a |
| HandlerLaws.RotrResult | friscjs.js:601-615 | ROTR stores `a >> b` (arithmetic); C = N = its sign; Z its zero test |
| HandlerLaws.ShrRotrStoreAlike | friscjs.js:553-615 | SHR and ROTR store the same registers, `a >> b` |
| HandlerLaws.MoveResult | friscjs.js:622-624 | MOVE between registers or from an immediate stores the value unmasked and keeps `sr` |
| HandlerLaws.MoveStatusRegister | friscjs.js:618-621 | a move from `sr` stores its low byte; a move to `sr` replaces `sr` with the low byte of the source |
| HandlerLaws.AlignDown | friscjs.js:629-635 | `x & ~3` and `x & ~1` clear the low bits of ToInt32(x) |
| HandlerLaws.LowTwoBits | friscjs.js:629-635 | the cleared bits are x mod 4 and x mod 2 |
| HandlerLaws.ImmediateFormAddressesZero | friscjs.js:329-351 | in the immediate form, the effective address of a load or store is 0 |
| HandlerLaws.RegisterFormAddress | friscjs.js:329-351 | in the register form, the effective address is the register plus the offset |
| HandlerLaws.LoadResult | friscjs.js:627-631 | LOAD stores the signed word read at `ea & ~3` and keeps `sr` |
| HandlerLaws.LoadhResult | friscjs.js:633-637 | LOADH stores the half-word at `ea & ~1`, in 0 .. 0xFFFF |
| HandlerLaws.LoadbResult | friscjs.js:639-642 | LOADB stores the byte at ea, in 0 .. 0xFF |
| HandlerLaws.WriteWordEffect | friscjs.js:93-96 | a word write reads back as ToInt32 of the value and leaves every other byte |
| HandlerLaws.StoreAt | friscjs.js:644-658 | storing a word changes memory only |
| HandlerLaws.StoreResult | friscjs.js:644-648 | STORE writes the register as a word at `ea & ~3` and changes nothing else |
| HandlerLaws.StorehResult | friscjs.js:650-654 | STOREH writes a whole word at `ea & ~1` |
| HandlerLaws.StorebResult | friscjs.js:656-659 | STOREB writes a whole word at ea |
| HandlerLaws.PushResult | friscjs.js:377-380 | PUSH lowers r7 by 4 and writes `r[src] & 3` there |
| HandlerLaws.PopResult | friscjs.js:372-375 | POP loads the word at `r7 & 3` and then adds 4 to r7 |
| HandlerLaws.PushPopStackPointer | friscjs.js:372-380 | PUSH then POP into another register restores r7 |
| HandlerLaws.PushPopLosesValue | friscjs.js:372-380 | PUSH then POP of a register, with r7 = 0x1000 and empty memory, gives 0 rather than the value |
| HandlerLaws.ReadEmptyWord | friscjs.js:77-79 | four zero bytes read as the word 0 |
| HandlerLaws.JpResult | friscjs.js:661-665 | a taken JP sets pc to `target & ~3`; otherwise nothing changes |
| HandlerLaws.JrResult | friscjs.js:667-671 | a taken JR sets pc to `(pc + offset) & ~3`; otherwise nothing changes |
| HandlerLaws.JrRelative | friscjs.js:667-671 | for aligned pc and offset in range, a taken JR moves pc by exactly the offset |
| HandlerLaws.CallResult | friscjs.js:673-679 | a taken CALL lowers r7 by 4, stores `pc & ~3` there and jumps to `target & ~3` |
| HandlerLaws.RetResult | friscjs.js:681-692 | a taken RET loads pc from the word at r7, masked with `~3`, and adds 4 to r7; otherwise nothing changes |
| HandlerLaws.RetStatus | friscjs.js:686-690 | RETI sets GIE; RETN turns `sr` into ToInt32(sr); plain RET keeps `sr` |
| HandlerLaws.CallThenRet | friscjs.js:673-692 | an unconditional CALL followed by RET restores the registers and `sr`, with pc `pc & ~3` |
| HandlerLaws.HaltAlwaysStops | friscjs.js:694-698 | an unconditional HALT stops the machine and changes nothing else |
| HandlerLaws.HaltResult | friscjs.js:694-698 | HALT stops exactly when its condition holds |
| HandlerLaws.OnlyJumpsMovePc | friscjs.js:371-699 | every handler except JP, JR, CALL and RET leaves pc |
| HandlerLaws.AluKeepsPc | friscjs.js:382-615 | ALU handlers and CMP leave pc |
| HandlerLaws.OtherKeepsPc | friscjs.js:627-659 | loads, stores, POP, PUSH and HALT leave pc |
| HandlerLaws.CycleAdvances | friscjs.js:730-754 | a cycle executes iff the word decodes; a non-jump then ends at pc + 4 |
| HandlerLaws.CycleJump | friscjs.js:661-665 | an unconditional JP ends its cycle at `(target & ~3) + 4` |
| HandlerLaws.CycleRejects | friscjs.js:730-754 | for the five unused opcodes, or a conditional opcode with condition 1111, the cycle stops and throws, changing nothing else |
| HandlerLaws.ResetResult | friscjs.js:756-759 | `reset` stops the machine, zeroes r0-r7, pc and sr, sets iif to 1, and keeps memory |
| Cpus.Cpu.constructor | friscjs.js:142 | `_r` starts with every register 0 and iif 1 |
| Cpus.Cpu.SetResultFlags | friscjs.js:402-405 | the four closing flag updates, C, V, N and Z, as `ArithFlags` |
| Cpus.Cpu.Stop | friscjs.js:720-728 | `stop()` marks the machine halted |
| Cpus.Cpu.AddCarrying | friscjs.js:382-435 | the body ADD and ADC share, leaving `AddWithCarry` of the old state |
| Cpus.Cpu.HandleAdd | friscjs.js:382-408 | the machine after ADD is `ExecAdd` of the machine before |
| Cpus.Cpu.HandleAdc | friscjs.js:410-435 | the machine after ADC is `ExecAdc` of the machine before |
| Cpus.Cpu.HandleSub | friscjs.js:438-467 | the machine after SUB is `ExecSub` of the machine before |
| Cpus.Cpu.Negate | friscjs.js:476-477 | `(~x + 1) & 0xFFFFFFFF` is ToInt32(-ToInt32(x)) |
| Cpus.Cpu.HandleSbc | friscjs.js:469-498 | the machine after SBC is `ExecSbc` of the machine before |
| Cpus.Cpu.HandleCmp | friscjs.js:500-507 | the machine after CMP is `ExecCmp` of the machine before |
| Cpus.Cpu.HandleAnd | friscjs.js:509-518 | the machine after AND is `ExecAnd` of the machine before |
| Cpus.Cpu.HandleOr | friscjs.js:520-529 | the machine after OR is `ExecOr` of the machine before |
| Cpus.Cpu.HandleXor | friscjs.js:531-540 | the machine after XOR is `ExecXor` of the machine before |
| Cpus.Cpu.HandleShl | friscjs.js:542-551 | the machine after SHL is `ExecShl` of the machine before |
| Cpus.Cpu.HandleShr | friscjs.js:553-567 | the machine after SHR is `ExecShr` of the machine before |
| Cpus.Cpu.HandleAshr | friscjs.js:569-585 | the machine after ASHR is `ExecAshr` of the machine before |
| Cpus.Cpu.HandleRotl | friscjs.js:587-599 | the machine after ROTL is `ExecRotl` of the machine before |
| Cpus.Cpu.HandleRotr | friscjs.js:601-615 | the machine after ROTR is `ExecRotr` of the machine before |
| Cpus.Cpu.HandleMove | friscjs.js:617-625 | the machine after MOVE is `ExecMove` of the machine before |
| Cpus.Cpu.HandleLoad | friscjs.js:627-631 | the machine after LOAD is `ExecLoad` of the machine before |
| Cpus.Cpu.HandleLoadh | friscjs.js:633-637 | the machine after LOADH is `ExecLoadh` of the machine before |
| Cpus.Cpu.HandleLoadb | friscjs.js:639-642 | the machine after LOADB is `ExecLoadb` of the machine before |
| Cpus.Cpu.HandleStore | friscjs.js:644-648 | the machine after STORE, memory included, is `ExecStore` of the machine before |
| Cpus.Cpu.HandleStoreh | friscjs.js:650-654 | the machine after STOREH is `ExecStoreh` of the machine before |
| Cpus.Cpu.HandleStoreb | friscjs.js:656-659 | the machine after STOREB is `ExecStoreb` of the machine before |
| Cpus.Cpu.HandlePop | friscjs.js:372-375 | the machine after POP is `ExecPop` of the machine before |
| Cpus.Cpu.HandlePush | friscjs.js:377-380 | the machine after PUSH is `ExecPush` of the machine before |
| Cpus.Cpu.HandleJp | friscjs.js:661-665 | the machine after JP is `ExecJp` of the machine before |
| Cpus.Cpu.HandleJr | friscjs.js:667-671 | the machine after JR is `ExecJr` of the machine before |
| Cpus.Cpu.HandleCall | friscjs.js:673-679 | the machine after CALL is `ExecCall` of the machine before |
| Cpus.Cpu.HandleRet | friscjs.js:681-692 | the machine after RET is `ExecRet` of the machine before |
| Cpus.Cpu.Return | friscjs.js:683-690 | the taken branch of RET |
| Cpus.Cpu.SetReturnStatus | friscjs.js:686-690 | the RETI and RETN status updates, `sr` only |
| Cpus.Cpu.HandleHalt | friscjs.js:694-698 | the machine after HALT is `ExecHalt` of the machine before |
| Cpus.Cpu.Dispatch | friscjs.js:743 | `_i[op].apply(this, args)` runs the handler `Execute` names |
| Cpus.Cpu.StepDecoded | friscjs.js:743-744 | the handler, then `pc += 4` |
| Cpus.Cpu.PerformCycle | friscjs.js:730-754 | one cycle: the outcome, thrown or not, and the new machine are `Cycle` of the old |
| Cpus.Cpu.Reset | friscjs.js:756-759 | the machine after `reset` is `Handlers.Reset` of the machine before |

## Left out

- `run`, `pause` and `stop` schedule timers (`setTimeout`, `clearTimeout`, `clearInterval`) at `_frequency`.  Wall-clock scheduling is not modelled.  `stop()` becomes the `halted` flag.
- The hooks `onBeforeRun`, `onBeforeCycle`, `onBeforeExecute`, `onAfterCycle` and `onStop` are external callbacks with no state of their own, so they are not modelled.
- `_state` is never updated by the code, so it is not modelled.
- `loadByteString`, `loadBytes` and `loadBinaryString` share one shape: `reset`, then `writeb(i, code_i)`.  `Mem.Memory.Load` models that shape over a sequence of byte codes.  Turning characters (`charCodeAt`) or binary strings (`parseInt`) into codes is not modelled.  `loadBytes` calls `bytes(i)` as a function, and the model reads the i-th code instead.
- The export glue at the end of the file is not modelled.
- `MEM._memory` is a map from addresses to numbers, not a 256 KiB array.  A JavaScript array grows on any write, and an unset cell reads as `undefined & 0xFF`, which is 0; the map captures both.  `_size` only bounds `reset`.
- JavaScript numbers are doubles.  The model uses exact integers, so values beyond 2^53 behave differently.  The emulator only reaches them through unbounded growth of `pc` or of a register.
- `_testCond` throws on an unknown condition string.  Conditions are a datatype here, and the decoder only produces mapped ones, so this throw is not modelled.
- Register names are strings in the source (`"r0"` .. `"r7"`) and indices 0 .. 7 in the model, which is every name `_decode` gives a handler.  ASHR's `this._r[src1]`, read after `src1` has become a number, is `undefined`, and the model writes its value, 0 after `& 0x80000000`, directly.
