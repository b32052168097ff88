/**
 * The instruction decoder `_decode`: a 32-bit word becomes an operation
 * name and its argument list.  Fields are cut out of the word with
 * `getBitString` and looked up, as strings, in the opcode, register and
 * condition tables.
 *
 * The tables are kept string-keyed as in the emulator; `OpOfCode`,
 * `CondOfCode` and the register numbering are the same tables indexed by
 * the numeric field, and the lemmas below tie the two together.
 */
module Decoder {
  import opened JsNum
  import opened BitStrings
  import opened Flags

  datatype Option<T> = None | Some(value: T)

  datatype Mnemonic =
    | MOVE | OR | AND | XOR | ADD | ADC | SUB | SBC | ROTL | ROTR | SHL | SHR | ASHR | CMP
    | JP | CALL | JR | RET | LOAD | STORE | LOADB | STOREB | LOADH | STOREH | POP | PUSH | HALT

  /** A general-purpose register r0 .. r7, by number. */
  type Reg = i: int | 0 <= i < 8

  /** An argument that is either a register name or a number (`typeof x === 'number'`). */
  datatype Operand = Register(r: Reg) | Number(n: int)

  /** MOVE's source: a register or number, or the status register. */
  datatype MoveSource = FromOperand(o: Operand) | FromSr

  /** MOVE's destination: a register, or the status register. */
  datatype MoveTarget = ToRegister(r: Reg) | ToSr

  /** The argument lists `_decode` builds, one shape per instruction format. */
  datatype Args =
    | MoveArgs(from: MoveSource, to: MoveTarget)
    | AluArgs(src1: Reg, src2: Operand, dest: Reg)
    | CmpArgs(src1: Reg, src2: Operand)
    | JumpArgs(cond: Cond, target: Operand)
    | JrArgs(cond: Cond, offset: int)
    | RetArgs(cond: Cond, isReti: bool, isRetn: bool)
    | MemArgs(addr: Operand, offset: int, reg: Reg)
    | StackArgs(reg: Reg)
    | HaltArgs(cond: Cond)

  /** `m[key]` on a JavaScript object: `None` stands for `undefined`. */
  function Lookup<K, V>(m: map<K, V>, key: K): Option<V> {
    if key in m then Some(m[key]) else None
  }

  /** The object `{op, args}`; `None` stands for `null`. */
  datatype Decoded = Decoded(op: Option<Mnemonic>, args: Option<Args>)

  /** `_instructionMap`. */
  const INSTRUCTION_MAP: map<string, Mnemonic> := map[
    "00000" := MOVE, "00001" := OR, "00010" := AND, "00011" := XOR,
    "00100" := ADD, "00101" := ADC, "00110" := SUB, "00111" := SBC,
    "01000" := ROTL, "01001" := ROTR, "01010" := SHL, "01011" := SHR,
    "01100" := ASHR, "01101" := CMP,
    "11000" := JP, "11001" := CALL, "11010" := JR, "11011" := RET,
    "10110" := LOAD, "10111" := STORE, "10010" := LOADB, "10011" := STOREB,
    "10100" := LOADH, "10101" := STOREH, "10000" := POP, "10001" := PUSH,
    "11111" := HALT]

  /** `_regMap`, with each register given by its number. */
  const REG_MAP: map<string, Reg> := map[
    "000" := 0, "001" := 1, "010" := 2, "011" := 3,
    "100" := 4, "101" := 5, "110" := 6, "111" := 7]

  /** `_conditionMap`; there is no entry for 1111. */
  const COND_MAP: map<string, Cond> := map[
    "0000" := Always, "0001" := IfN, "0010" := IfNN, "0011" := IfC,
    "0100" := IfNC, "0101" := IfV, "0110" := IfNV, "0111" := IfZ,
    "1000" := IfNZ, "1001" := IfULE, "1010" := IfUGT, "1011" := IfSLT,
    "1100" := IfSLE, "1101" := IfSGE, "1110" := IfSGT]

  // ---------------------------------------------------------------------
  // The tables indexed by number
  // ---------------------------------------------------------------------

  /** The FRISC opcode table by the numeric value of bits 27-31. */
  function OpOfCode(code: int): Option<Mnemonic> {
    match code
    case 0 => Some(MOVE)  case 1 => Some(OR)     case 2 => Some(AND)     case 3 => Some(XOR)
    case 4 => Some(ADD)   case 5 => Some(ADC)    case 6 => Some(SUB)     case 7 => Some(SBC)
    case 8 => Some(ROTL)  case 9 => Some(ROTR)   case 10 => Some(SHL)    case 11 => Some(SHR)
    case 12 => Some(ASHR) case 13 => Some(CMP)
    case 16 => Some(POP)  case 17 => Some(PUSH)  case 18 => Some(LOADB)  case 19 => Some(STOREB)
    case 20 => Some(LOADH) case 21 => Some(STOREH) case 22 => Some(LOAD) case 23 => Some(STORE)
    case 24 => Some(JP)   case 25 => Some(CALL)  case 26 => Some(JR)     case 27 => Some(RET)
    case 31 => Some(HALT)
    case _ => None
  }

  /** The condition table by the numeric value of bits 22-25. */
  function CondOfCode(code: int): Option<Cond> {
    match code
    case 0 => Some(Always) case 1 => Some(IfN)    case 2 => Some(IfNN)   case 3 => Some(IfC)
    case 4 => Some(IfNC)   case 5 => Some(IfV)    case 6 => Some(IfNV)   case 7 => Some(IfZ)
    case 8 => Some(IfNZ)   case 9 => Some(IfULE)  case 10 => Some(IfUGT) case 11 => Some(IfSLT)
    case 12 => Some(IfSLE) case 13 => Some(IfSGE) case 14 => Some(IfSGT)
    case _ => None
  }

  /** The operations with the three-operand ALU format. */
  predicate IsAlu(op: Mnemonic) {
    op in {OR, AND, XOR, ADD, ADC, SUB, SBC, ROTL, ROTR, SHL, SHR, ASHR}
  }

  /** The operations with the memory-operand format. */
  predicate IsMemory(op: Mnemonic) {
    op in {LOAD, STORE, LOADB, STOREB, LOADH, STOREH}
  }

  /** The operations that carry a condition field. */
  predicate IsConditional(op: Mnemonic) {
    op in {JP, CALL, JR, RET, HALT}
  }

  // ---------------------------------------------------------------------
  // The decoder
  // ---------------------------------------------------------------------

  /** `this._regMap[getBitString(statement, start, end)]` for a three-bit field. */
  function RegisterField(statement: int, start: nat, end: nat): Reg
    requires end == start + 2 && end < 32
  {
    RegisterKey(statement, start, end);
    REG_MAP[GetBitString(statement, start, end)]
  }

  /** The signed 20-bit immediate: `convertBinaryToInt(extend(getBitString(statement, 0, 19), 32, 1), 1)`. */
  function Immediate(statement: int): int {
    BinaryToInt(Extended(GetBitString(statement, 0, 19), 32, true), true)
  }

  /** The second operand: register bits 17-19 when bit 26 reads "0", else the immediate. */
  function RegOrImmediate(statement: int): Operand {
    if GetBitString(statement, 26, 26) == "0" then Register(RegisterField(statement, 17, 19))
    else Number(Immediate(statement))
  }

  /** `this._conditionMap[getBitString(statement, 22, 25)]`, `None` for undefined. */
  function CondField(statement: int): Option<Cond> {
    Lookup(COND_MAP, GetBitString(statement, 22, 25))
  }

  /** The argument list `_decode` builds for op, `None` when the condition is undefined. */
  function DecodeArgs(op: Mnemonic, statement: int): Option<Args> {
    match op
    case MOVE =>
      var src := if GetBitString(statement, 21, 22) == "1" then FromSr
        else FromOperand(RegOrImmediate(statement));
      var dest := if GetBitString(statement, 20, 21) == "1" then ToSr
        else ToRegister(RegisterField(statement, 23, 25));
      Some(MoveArgs(src, dest))
    case OR | AND | XOR | ADD | ADC | SUB | SBC | ROTL | ROTR | SHL | SHR | ASHR =>
      Some(AluArgs(RegisterField(statement, 20, 22), RegOrImmediate(statement), RegisterField(statement, 23, 25)))
    case CMP =>
      Some(CmpArgs(RegisterField(statement, 20, 22), RegOrImmediate(statement)))
    case JP | CALL =>
      var cond := CondField(statement);
      if cond.None? then None else Some(JumpArgs(cond.value, RegOrImmediate(statement)))
    case JR =>
      var cond := CondField(statement);
      if cond.None? then None else Some(JrArgs(cond.value, Immediate(statement)))
    case RET =>
      var cond := CondField(statement);
      if cond.None? then None
      else
        var isReti := GetBitString(statement, 0, 1) == "1" && GetBitString(statement, 1, 2) == "0";
        var isRetn := GetBitString(statement, 0, 1) == "1" && GetBitString(statement, 1, 2) == "1";
        Some(RetArgs(cond.value, isReti, isRetn))
    case LOAD | STORE | LOADB | STOREB | LOADH | STOREH =>
      if GetBitString(statement, 26, 26) == "0" then
        Some(MemArgs(Number(Immediate(statement)), 0, RegisterField(statement, 23, 25)))
      else
        Some(MemArgs(Register(RegisterField(statement, 20, 22)), Immediate(statement), RegisterField(statement, 23, 25)))
    case POP | PUSH =>
      Some(StackArgs(RegisterField(statement, 23, 25)))
    case HALT =>
      var cond := CondField(statement);
      if cond.None? then None else Some(HaltArgs(cond.value))
  }

  /** `_decode(statement)`. */
  function Decode(statement: int): Decoded {
    var op := Lookup(INSTRUCTION_MAP, GetBitString(statement, 27, 31));
    if op.None? then Decoded(None, None) else Decoded(op, DecodeArgs(op.value, statement))
  }

  // ---------------------------------------------------------------------
  // The string tables agree with the numeric ones
  // ---------------------------------------------------------------------

  /** Every three-bit field names a register: the register whose number the field holds. */
  lemma RegisterKey(statement: int, start: nat, end: nat)
    requires end == start + 2 && end < 32
    ensures GetBitString(statement, start, end) in REG_MAP
    ensures REG_MAP[GetBitString(statement, start, end)] == Field(statement, start, 3)
  {
    var t := GetBitString(statement, start, end);
    GetBitStringWindow(statement, start, end);
    Window3(t, statement, start);
    RegTable(Bit(statement, start + 2), Bit(statement, start + 1), Bit(statement, start));
  }

  /** The register field names the register whose number the three bits hold. */
  lemma RegisterValue(statement: int, start: nat, end: nat)
    requires end == start + 2 && end < 32
    ensures RegisterField(statement, start, end) == RegAt(statement, start)
  {
    RegisterKey(statement, start, end);
  }

  /** The opcode field, looked up as `_decode` does, gives the operation the numeric table gives. */
  lemma OpcodeField(statement: int)
    ensures Lookup(INSTRUCTION_MAP, GetBitString(statement, 27, 31)) == OpOfCode(Field(statement, 27, 5))
  {
    var t := GetBitString(statement, 27, 31);
    GetBitStringWindow(statement, 27, 31);
    Window5(t, statement, 27);
    OpcodeBits(t, Field(statement, 27, 5), Bit(statement, 27 + 4), Bit(statement, 27 + 3),
      Bit(statement, 27 + 2), Bit(statement, 27 + 1), Bit(statement, 27));
  }

  /** The opcode table on a five-character key spelled out digit by digit. */
  lemma OpcodeBits(t: string, code: int, b4: bool, b3: bool, b2: bool, b1: bool, b0: bool)
    requires t == [Digit(b4), Digit(b3), Digit(b2), Digit(b1), Digit(b0)]
    requires code == 16 * BitValue(b4) + 8 * BitValue(b3) + 4 * BitValue(b2) + 2 * BitValue(b1) + BitValue(b0)
    ensures Lookup(INSTRUCTION_MAP, t) == OpOfCode(code)
  {
    if !b4 && !b3 {
      OpTable00(b2, b1, b0);
    } else if !b4 {
      OpTable01(b2, b1, b0);
    } else if !b3 {
      OpTable10(b2, b1, b0);
    } else {
      OpTable11(b2, b1, b0);
    }
  }

  /** The condition field, looked up as `_decode` does, gives the condition the numeric table gives. */
  lemma ConditionField(statement: int)
    ensures CondField(statement) == CondAt(statement)
  {
    var t := GetBitString(statement, 22, 25);
    GetBitStringWindow(statement, 22, 25);
    Window4(t, statement, 22);
    var b3, b2, b1, b0 := Bit(statement, 22 + 3), Bit(statement, 22 + 2), Bit(statement, 22 + 1), Bit(statement, 22);
    if !b3 {
      CondTable0(b2, b1, b0);
    } else {
      CondTable1(b2, b1, b0);
    }
  }

  lemma RegTable(b2: bool, b1: bool, b0: bool)
    ensures Lookup(REG_MAP, [Digit(b2), Digit(b1), Digit(b0)]) == Some(4 * BitValue(b2) + 2 * BitValue(b1) + BitValue(b0))
  {
  }

  lemma OpTable00(b2: bool, b1: bool, b0: bool)
    ensures Lookup(INSTRUCTION_MAP, ['0', '0', Digit(b2), Digit(b1), Digit(b0)])
         == OpOfCode(4 * BitValue(b2) + 2 * BitValue(b1) + BitValue(b0))
  {
  }

  lemma OpTable01(b2: bool, b1: bool, b0: bool)
    ensures Lookup(INSTRUCTION_MAP, ['0', '1', Digit(b2), Digit(b1), Digit(b0)])
         == OpOfCode(8 + 4 * BitValue(b2) + 2 * BitValue(b1) + BitValue(b0))
  {
  }

  lemma OpTable10(b2: bool, b1: bool, b0: bool)
    ensures Lookup(INSTRUCTION_MAP, ['1', '0', Digit(b2), Digit(b1), Digit(b0)])
         == OpOfCode(16 + 4 * BitValue(b2) + 2 * BitValue(b1) + BitValue(b0))
  {
  }

  lemma OpTable11(b2: bool, b1: bool, b0: bool)
    ensures Lookup(INSTRUCTION_MAP, ['1', '1', Digit(b2), Digit(b1), Digit(b0)])
         == OpOfCode(24 + 4 * BitValue(b2) + 2 * BitValue(b1) + BitValue(b0))
  {
  }

  lemma CondTable0(b2: bool, b1: bool, b0: bool)
    ensures Lookup(COND_MAP, ['0', Digit(b2), Digit(b1), Digit(b0)])
         == CondOfCode(4 * BitValue(b2) + 2 * BitValue(b1) + BitValue(b0))
  {
  }

  lemma CondTable1(b2: bool, b1: bool, b0: bool)
    ensures Lookup(COND_MAP, ['1', Digit(b2), Digit(b1), Digit(b0)])
         == CondOfCode(8 + 4 * BitValue(b2) + 2 * BitValue(b1) + BitValue(b0))
  {
  }

  // ---------------------------------------------------------------------
  // A numeric reference decoder, and `_decode` agrees with it
  // ---------------------------------------------------------------------

  /** The register named by bits start .. start+2. */
  function RegAt(statement: int, start: nat): Reg {
    LowBound(Half(ToUint32(statement), start), 3);
    Field(statement, start, 3)
  }

  /** The two's-complement value of bits 0-19. */
  function SignedImmediate(statement: int): int {
    Field(statement, 0, 20) - (if Bit(statement, 19) then 0x10_0000 else 0)
  }

  /** The second operand: the immediate when bit 26 is set, else the register in bits 17-19. */
  function OperandAt(statement: int): Operand {
    if Bit(statement, 26) then Number(SignedImmediate(statement)) else Register(RegAt(statement, 17))
  }

  /** The condition in bits 22-25, `None` for 1111. */
  function CondAt(statement: int): Option<Cond> {
    CondOfCode(Field(statement, 22, 4))
  }

  /** The argument list of op read field by field, without strings. */
  function ReferenceArgs(op: Mnemonic, statement: int): Option<Args> {
    match op
    case MOVE => Some(MoveArgs(FromOperand(OperandAt(statement)), ToRegister(RegAt(statement, 23))))
    case OR | AND | XOR | ADD | ADC | SUB | SBC | ROTL | ROTR | SHL | SHR | ASHR =>
      Some(AluArgs(RegAt(statement, 20), OperandAt(statement), RegAt(statement, 23)))
    case CMP => Some(CmpArgs(RegAt(statement, 20), OperandAt(statement)))
    case JP | CALL => if CondAt(statement).None? then None else Some(JumpArgs(CondAt(statement).value, OperandAt(statement)))
    case JR => if CondAt(statement).None? then None else Some(JrArgs(CondAt(statement).value, SignedImmediate(statement)))
    case RET => if CondAt(statement).None? then None else Some(RetArgs(CondAt(statement).value, false, false))
    case LOAD | STORE | LOADB | STOREB | LOADH | STOREH =>
      if Bit(statement, 26) then Some(MemArgs(Register(RegAt(statement, 20)), SignedImmediate(statement), RegAt(statement, 23)))
      else Some(MemArgs(Number(SignedImmediate(statement)), 0, RegAt(statement, 23)))
    case POP | PUSH => Some(StackArgs(RegAt(statement, 23)))
    case HALT => if CondAt(statement).None? then None else Some(HaltArgs(CondAt(statement).value))
  }

  /** The FRISC instruction formats read field by field, without strings. */
  function ReferenceDecode(statement: int): Decoded {
    var op := OpOfCode(Field(statement, 27, 5));
    if op.None? then Decoded(None, None) else Decoded(op, ReferenceArgs(op.value, statement))
  }

  /** A one-bit `getBitString` is the digit of that bit. */
  lemma SingleBit(statement: int, i: nat)
    requires i < 32
    ensures GetBitString(statement, i, i) == [Digit(Bit(statement, i))]
  {
    GetBitStringWindow(statement, i, i);
  }

  /** A two-bit `getBitString` has two characters, so it never equals "1". */
  lemma TwoBits(statement: int, i: nat, j: nat)
    requires j == i + 1 && j < 32
    ensures GetBitString(statement, i, j) != "1"
  {
    GetBitStringWindow(statement, i, j);
  }

  /** The decoder's immediate is the two's-complement value of bits 0-19, between -2^19 and 2^19 - 1. */
  lemma ImmediateValue(statement: int)
    ensures Immediate(statement) == SignedImmediate(statement)
    ensures -0x8_0000 <= Immediate(statement) < 0x8_0000
  {
    Immediate20(statement);
    Immediate20Range(statement);
  }

  /** The register-or-number operand: register bits 17-19 when bit 26 is clear, the immediate when it is set. */
  lemma OperandValue(statement: int)
    ensures RegOrImmediate(statement) == OperandAt(statement)
  {
    SingleBit(statement, 26);
    ImmediateValue(statement);
    RegisterValue(statement, 17, 19);
  }

  /** The argument list `_decode` builds for op is the one the reference decoder reads. */
  lemma ArgsAgree(op: Mnemonic, statement: int)
    ensures DecodeArgs(op, statement) == ReferenceArgs(op, statement)
  {
    if op == MOVE {
      MoveArgsAgree(statement);
    } else if IsAlu(op) || op == CMP {
      AluArgsAgree(op, statement);
    } else if IsConditional(op) {
      ConditionalArgsAgree(op, statement);
    } else {
      MemoryArgsAgree(op, statement);
    }
  }

  lemma MoveArgsAgree(statement: int)
    ensures DecodeArgs(MOVE, statement) == ReferenceArgs(MOVE, statement)
  {
    RegisterValue(statement, 23, 25);
    OperandValue(statement);
    TwoBits(statement, 21, 22);
    TwoBits(statement, 20, 21);
  }

  lemma AluArgsAgree(op: Mnemonic, statement: int)
    requires IsAlu(op) || op == CMP
    ensures DecodeArgs(op, statement) == ReferenceArgs(op, statement)
  {
    AluShapes(op, statement);
    RegisterValue(statement, 23, 25);
    RegisterValue(statement, 20, 22);
    OperandValue(statement);
  }

  lemma AluShapes(op: Mnemonic, statement: int)
    requires IsAlu(op) || op == CMP
    ensures var operand := OperandAt(statement);
      ReferenceArgs(op, statement)
      == if op == CMP then Some(CmpArgs(RegAt(statement, 20), operand))
         else Some(AluArgs(RegAt(statement, 20), operand, RegAt(statement, 23)))
    ensures DecodeArgs(op, statement)
      == if op == CMP then Some(CmpArgs(RegisterField(statement, 20, 22), RegOrImmediate(statement)))
         else Some(AluArgs(RegisterField(statement, 20, 22), RegOrImmediate(statement), RegisterField(statement, 23, 25)))
  {
  }

  lemma ConditionalArgsAgree(op: Mnemonic, statement: int)
    requires IsConditional(op)
    ensures DecodeArgs(op, statement) == ReferenceArgs(op, statement)
  {
    if op == JP || op == CALL {
      JumpArgsAgree(op, statement);
    } else if op == JR {
      JrArgsAgree(statement);
    } else if op == RET {
      RetArgsAgree(statement);
    } else {
      HaltArgsAgree(statement);
    }
  }

  lemma JumpArgsAgree(op: Mnemonic, statement: int)
    requires op == JP || op == CALL
    ensures DecodeArgs(op, statement) == ReferenceArgs(op, statement)
  {
    ConditionField(statement);
    OperandValue(statement);
  }

  lemma JrArgsAgree(statement: int)
    ensures DecodeArgs(JR, statement) == ReferenceArgs(JR, statement)
  {
    ConditionField(statement);
    ImmediateValue(statement);
  }

  lemma RetArgsAgree(statement: int)
    ensures DecodeArgs(RET, statement) == ReferenceArgs(RET, statement)
  {
    ConditionField(statement);
    TwoBits(statement, 0, 1);
  }

  lemma HaltArgsAgree(statement: int)
    ensures DecodeArgs(HALT, statement) == ReferenceArgs(HALT, statement)
  {
    ConditionField(statement);
  }

  lemma MemoryArgsAgree(op: Mnemonic, statement: int)
    requires IsMemory(op) || op == POP || op == PUSH
    ensures DecodeArgs(op, statement) == ReferenceArgs(op, statement)
  {
    RegisterValue(statement, 23, 25);
    if IsMemory(op) {
      MemoryShapes(op, statement);
      SingleBit(statement, 26);
      ImmediateValue(statement);
      RegisterValue(statement, 20, 22);
    }
  }

  lemma MemoryShapes(op: Mnemonic, statement: int)
    requires IsMemory(op)
    ensures var imm, dest := SignedImmediate(statement), RegAt(statement, 23);
      ReferenceArgs(op, statement)
      == if Bit(statement, 26) then Some(MemArgs(Register(RegAt(statement, 20)), imm, dest))
         else Some(MemArgs(Number(imm), 0, dest))
    ensures var imm, dest := Immediate(statement), RegisterField(statement, 23, 25);
      DecodeArgs(op, statement)
      == if GetBitString(statement, 26, 26) != "0" then Some(MemArgs(Register(RegisterField(statement, 20, 22)), imm, dest))
         else Some(MemArgs(Number(imm), 0, dest))
  {
  }

  /** `_decode` reads every instruction word as the reference decoder does. */
  lemma DecodeAgrees(statement: int)
    ensures Decode(statement) == ReferenceDecode(statement)
  {
    OpcodeField(statement);
    var op := OpOfCode(Field(statement, 27, 5));
    if op.Some? {
      ArgsAgree(op.value, statement);
    }
  }

  // ---------------------------------------------------------------------
  // What `_decode` gives
  // ---------------------------------------------------------------------

  /** The operation is the opcode table's entry for bits 27-31; an unused opcode gives `{op: null, args: null}`. */
  lemma DecodeOpcode(statement: int)
    ensures Decode(statement).op == OpOfCode(Field(statement, 27, 5))
    ensures Decode(statement).op.None? ==> Decode(statement).args.None?
  {
    OpcodeField(statement);
  }

  /**
   * Decoding fails exactly for the unused opcodes 14, 15 and 28-30 and for
   * a conditional instruction whose condition field is 1111.
   */
  lemma DecodeFails(statement: int)
    ensures (Decode(statement).op.None? || Decode(statement).args.None?)
        <==> (var code := Field(statement, 27, 5);
              code in {14, 15, 28, 29, 30} || (code in {24, 25, 26, 27, 31} && Field(statement, 22, 4) == 15))
  {
    DecodeAgrees(statement);
    var code := Field(statement, 27, 5);
    LowBound(Half(ToUint32(statement), 27), 5);
    LowBound(Half(ToUint32(statement), 22), 4);
    OpcodeGaps(code);
    ConditionGap(Field(statement, 22, 4));
    if OpOfCode(code).Some? {
      ReferenceArgsFail(OpOfCode(code).value, statement);
    }
  }

  /** The opcode table has no entry for 14, 15 and 28-30; the conditional operations are 24-27 and 31. */
  lemma OpcodeGaps(code: int)
    requires 0 <= code < 32
    ensures OpOfCode(code).None? <==> code in {14, 15, 28, 29, 30}
    ensures OpOfCode(code).Some? ==> (IsConditional(OpOfCode(code).value) <==> code in {24, 25, 26, 27, 31})
  {
  }

  /** The condition table has an entry for every four-bit code but 1111. */
  lemma ConditionGap(code: int)
    requires 0 <= code < 16
    ensures CondOfCode(code).None? <==> code == 15
  {
  }

  /** The reference argument list is missing exactly for a conditional operation with no condition. */
  lemma ReferenceArgsFail(op: Mnemonic, statement: int)
    ensures ReferenceArgs(op, statement).None? <==> IsConditional(op) && CondAt(statement).None?
  {
    if IsConditional(op) {
      ConditionalArgsPresence(op, statement);
    } else {
      UnconditionalArgsPresent(op, statement);
    }
  }

  lemma ConditionalArgsPresence(op: Mnemonic, statement: int)
    requires IsConditional(op)
    ensures ReferenceArgs(op, statement).None? <==> CondAt(statement).None?
  {
  }

  lemma UnconditionalArgsPresent(op: Mnemonic, statement: int)
    requires !IsConditional(op)
    ensures ReferenceArgs(op, statement).Some?
  {
  }

  /**
   * The status-register forms of MOVE are never produced: the source and
   * destination tests compare a two-character field with "1".
   */
  lemma MoveNeverStatusRegister(statement: int)
    ensures Decode(statement).args.Some? && Decode(statement).args.value.MoveArgs? ==>
      Decode(statement).args.value.from.FromOperand? && Decode(statement).args.value.to.ToRegister?
  {
    DecodeAgrees(statement);
  }

  /** For the same reason RET is never decoded as RETI or RETN. */
  lemma ReturnNeverReti(statement: int)
    ensures Decode(statement).args.Some? && Decode(statement).args.value.RetArgs? ==>
      !Decode(statement).args.value.isReti && !Decode(statement).args.value.isRetn
  {
    DecodeAgrees(statement);
  }

  /**
   * Every number in an argument list is imm: a number operand of MOVE, the
   * ALU instructions, CMP, JP and CALL, the JR offset, and the address of an
   * immediate-form load or store; a memory offset is imm or 0.
   */
  predicate NumbersAre(args: Args, imm: int) {
    match args
    case MoveArgs(from, _) => from.FromOperand? && from.o.Number? ==> from.o.n == imm
    case AluArgs(_, src2, _) => src2.Number? ==> src2.n == imm
    case CmpArgs(_, src2) => src2.Number? ==> src2.n == imm
    case JumpArgs(_, target) => target.Number? ==> target.n == imm
    case JrArgs(_, offset) => offset == imm
    case MemArgs(addr, offset, _) => (addr.Number? ==> addr.n == imm) && (offset == 0 || offset == imm)
    case _ => true
  }

  /** Every number the decoder produces is the sign-extended 20-bit immediate of the word, in -2^19 .. 2^19-1. */
  lemma DecodedNumbers(statement: int)
    ensures Decode(statement).args.Some? ==> NumbersAre(Decode(statement).args.value, SignedImmediate(statement))
    ensures -0x8_0000 <= SignedImmediate(statement) < 0x8_0000
  {
    DecodeAgrees(statement);
    ImmediateValue(statement);
    var op := OpOfCode(Field(statement, 27, 5));
    if op.Some? {
      ReferenceNumbers(op.value, statement);
    }
  }

  lemma ReferenceNumbers(op: Mnemonic, statement: int)
    ensures ReferenceArgs(op, statement).Some? ==> NumbersAre(ReferenceArgs(op, statement).value, SignedImmediate(statement))
  {
    if IsAlu(op) || op == CMP {
      AluShapes(op, statement);
    } else if IsMemory(op) {
      MemoryShapes(op, statement);
    }
  }
}
