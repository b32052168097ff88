/**
 * The execution handlers `_i` and one step of `performCycle`, as functions
 * from the CPU state before an instruction to the state after it.
 *
 * The state is the register object `_r` (r0 .. r7, pc, sr, iif), the bytes
 * of `MEM`, and whether `stop()` has been called.  Each handler computes
 * exactly what its JavaScript counterpart computes, operator by operator,
 * so that the quirks of the emulator (the 27-bit carry mask, the flag
 * order of SHR, the unshifted ASHR result, the address-0 immediate form of
 * the loads and stores, ...) are part of the model; the lemmas below state
 * what each handler amounts to.
 */
module Handlers {
  import opened JsNum
  import opened BitStrings
  import opened Flags
  import opened Mem
  import opened Decoder

  /** The general-purpose registers r0 .. r7, by number. */
  type Regs = r: seq<int> | |r| == 8 witness [0, 0, 0, 0, 0, 0, 0, 0]

  /**
   * `_r`, the memory image and the stopped state.  Register values are
   * JavaScript numbers: they are not confined to 32 bits (`pc += 4`,
   * `r7 -= 4` and MOVE store them unmasked).
   */
  datatype State = State(r: Regs, pc: int, sr: int, iif: int, mem: Image, halted: bool)

  /** `0xFFFFFFFF00000000`, the high-word mask of ROTL and ROTR; its 32-bit pattern is zero. */
  const HIGH_WORD_MASK: int := 0xFFFF_FFFF_0000_0000

  /** `typeof x === 'number' ? x : this._r[x]`. */
  function ValueOf(s: State, o: Operand): int {
    match o
    case Register(i) => s.r[i]
    case Number(n) => n
  }

  /**
   * The four `_setFlag` calls that end the arithmetic handlers, in their
   * order C, V, N, Z; N is `res & 0x80000000` and Z is `!(res & 0xFFFFFFFF)`.
   */
  function ArithFlags(sr: int, carry: bool, overflow: bool, res: int): int {
    var sr1 := SetFlag(sr, C, carry);
    var sr2 := SetFlag(sr1, V, overflow);
    var sr3 := SetFlag(sr2, N, And(res, 0x8000_0000) != 0);
    SetFlag(sr3, Z, And(res, 0xFFFF_FFFF) == 0)
  }

  /**
   * The carry `c_zadnji` and overflow `c_predzadnji ^ c_zadnji` that ADD,
   * ADC and SBC compute.  The carry into bit 31 is taken from the 27-bit
   * masks `& 0x7FFFFFF`; `x >> 31 & 1 > 0` parses as `(x >> 31) & (1 > 0)`,
   * that is `(x >> 31) & 1`.  Both carries are 0 or 1, so their `^` is
   * written as "they differ" (`XorOfBits`).
   */
  function CarryOut(a: int, b: int, carry: int): (cv: (bool, bool)) {
    var t1, t2 := And(a, 0x7FF_FFFF), And(b, 0x7FF_FFFF);
    var cPrev := if And(Sar(t1 + t2 + carry, 31), 1) != 0 then 1 else 0;
    var b1, b2 := And(Sar(a, 31), 1), And(Sar(b, 31), 1);
    var cLast := if b1 + b2 + cPrev > 1 then 1 else 0;
    (cLast != 0, cPrev != cLast)
  }

  // ---------------------------------------------------------------------
  // Arithmetic and logic
  // ---------------------------------------------------------------------

  /** ADD and ADC differ only in their carry-in: 0 for ADD, the C flag for ADC. */
  function AddWithCarry(s: State, src1: Reg, src2: Operand, dest: Reg, carry: int): State {
    var a, b := s.r[src1], ValueOf(s, src2);
    var res := a + b + carry;
    var cv := CarryOut(a, b, carry);
    s.(sr := ArithFlags(s.sr, cv.0, cv.1, res), r := s.r[dest := And(res, 0xFFFF_FFFF)])
  }

  function ExecAdd(s: State, src1: Reg, src2: Operand, dest: Reg): State {
    AddWithCarry(s, src1, src2, dest, 0)
  }

  function ExecAdc(s: State, src1: Reg, src2: Operand, dest: Reg): State {
    AddWithCarry(s, src1, src2, dest, GetFlag(s.sr, C))
  }

  /** SUB; the negated operand and carry it also computes are not used. */
  function ExecSub(s: State, src1: Reg, src2: Operand, dest: Reg): State {
    var a, b := s.r[src1], ValueOf(s, src2);
    var res := a - b - 0;
    s.(sr := ArithFlags(s.sr, res > 0xFFFF_FFFF, res > 0xFFFF_FFFF, res), r := s.r[dest := And(res, 0xFFFF_FFFF)])
  }

  /** SBC: the flags come from the sum of the first operand and the negated second operand and carry. */
  function ExecSbc(s: State, src1: Reg, src2: Operand, dest: Reg): State {
    var a, b := s.r[src1], ValueOf(s, src2);
    var carry := GetFlag(s.sr, C);
    var res := a - b - carry;
    var cv := SbcCarryOut(a, b, carry);
    s.(sr := ArithFlags(s.sr, cv.0, cv.1, res), r := s.r[dest := And(res, 0xFFFF_FFFF)])
  }

  /**
   * SBC's carry and overflow: those of adding `(~b + 1) & 0xFFFFFFFF` and
   * `(~carry + 1) & 0xFFFFFFFF` to a.  Both are written as the value
   * ToInt32(-ToInt32(x)) that `Negation` shows them to be.
   */
  function SbcCarryOut(a: int, b: int, carry: int): (bool, bool) {
    CarryOut(a, ToInt32(-ToInt32(b)), ToInt32(-ToInt32(carry)))
  }

  function ExecCmp(s: State, src1: Reg, src2: Operand): State {
    var res := s.r[src1] - ValueOf(s, src2);
    s.(sr := ArithFlags(s.sr, res > 0xFFFF_FFFF, res > 0xFFFF_FFFF, res))
  }

  function ExecAnd(s: State, src1: Reg, src2: Operand, dest: Reg): State {
    var res := And(s.r[src1], ValueOf(s, src2));
    s.(sr := ArithFlags(s.sr, false, false, res), r := s.r[dest := And(res, 0xFFFF_FFFF)])
  }

  function ExecOr(s: State, src1: Reg, src2: Operand, dest: Reg): State {
    var res := Or(s.r[src1], ValueOf(s, src2));
    s.(sr := ArithFlags(s.sr, false, false, res), r := s.r[dest := And(res, 0xFFFF_FFFF)])
  }

  function ExecXor(s: State, src1: Reg, src2: Operand, dest: Reg): State {
    var res := Xor(s.r[src1], ValueOf(s, src2));
    s.(sr := ArithFlags(s.sr, false, false, res), r := s.r[dest := And(res, 0xFFFF_FFFF)])
  }

  // ---------------------------------------------------------------------
  // Shifts and rotations
  // ---------------------------------------------------------------------

  function ExecShl(s: State, src1: Reg, src2: Operand, dest: Reg): State {
    var res := Shl(s.r[src1], ValueOf(s, src2));
    s.(sr := ArithFlags(s.sr, And(res, TWO32) != 0, false, res), r := s.r[dest := And(res, 0xFFFF_FFFF)])
  }

  /** SHR: C is set twice, the second time to "the result is zero"; Z is left alone. */
  function ExecShr(s: State, src1: Reg, src2: Operand, dest: Reg): State {
    var a := Shl(s.r[src1], 32);
    var res := Sar(a, ValueOf(s, src2));
    var sr1 := SetFlag(s.sr, C, And(res, 0x8000_0000) != 0);
    var res2 := Sar(res, 32);
    var sr2 := SetFlag(sr1, V, false);
    var sr3 := SetFlag(sr2, N, And(res2, 0x8000_0000) != 0);
    var sr4 := SetFlag(sr3, C, And(res2, 0xFFFF_FFFF) == 0);
    s.(sr := sr4, r := s.r[dest := And(res2, 0xFFFF_FFFF)])
  }

  /**
   * ASHR: the stored result is `src1 >> 32`, the unshifted source.  The
   * sign term reads `_r` at the number `src1` has become, which is
   * undefined, so it is `undefined & 0x80000000`, that is 0.
   */
  function ExecAshr(s: State, src1: Reg, src2: Operand, dest: Reg): State {
    var a := Shl(s.r[src1], 32);
    var sign := And(0, 0x8000_0000);
    var res := Sar(a, ValueOf(s, src2));
    var sr1 := SetFlag(s.sr, C, And(res, 0x8000_0000) != 0);
    var res2 := Or(Sar(a, 32), sign);
    var sr2 := SetFlag(sr1, V, false);
    var sr3 := SetFlag(sr2, N, And(res2, 0x8000_0000) != 0);
    var sr4 := SetFlag(sr3, Z, And(res2, 0xFFFF_FFFF) == 0);
    s.(sr := sr4, r := s.r[dest := And(res2, 0xFFFF_FFFF)])
  }

  function ExecRotl(s: State, src1: Reg, src2: Operand, dest: Reg): State {
    var res := Shl(s.r[src1], ValueOf(s, src2));
    var carry := And(res, TWO32) != 0;
    var res2 := Or(And(res, 0xFFFF_FFFF), Sar(And(res, HIGH_WORD_MASK), 32));
    s.(sr := ArithFlags(s.sr, carry, false, res2), r := s.r[dest := And(res2, 0xFFFF_FFFF)])
  }

  function ExecRotr(s: State, src1: Reg, src2: Operand, dest: Reg): State {
    var a := Shl(s.r[src1], 32);
    var res := Sar(a, ValueOf(s, src2));
    var carry := And(res, 0x8000_0000) != 0;
    var res2 := Sar(Or(Shl(And(res, 0xFFFF_FFFF), 32), And(res, HIGH_WORD_MASK)), 32);
    s.(sr := ArithFlags(s.sr, carry, false, res2), r := s.r[dest := And(res2, 0xFFFF_FFFF)])
  }

  // ---------------------------------------------------------------------
  // Moves, loads and stores
  // ---------------------------------------------------------------------

  /** MOVE, with the status-register forms `_decode` never produces. */
  function ExecMove(s: State, from: MoveSource, to: MoveTarget): State {
    var v := match from
      case FromSr => And(s.sr, 0xFF)
      case FromOperand(o) => if to.ToSr? then And(ValueOf(s, o), 0xFF) else ValueOf(s, o);
    match to
    case ToSr => s.(sr := v)
    case ToRegister(i) => s.(r := s.r[i := v])
  }

  /** The effective address: the register's value for a register base, 0 for a number, plus the offset. */
  function EffectiveAddress(s: State, addr: Operand, offset: int): int {
    (if addr.Register? then s.r[addr.r] else 0) + offset
  }

  function ExecLoad(s: State, addr: Operand, offset: int, reg: Reg): State {
    var a := And(EffectiveAddress(s, addr, offset), Not(3));
    s.(r := s.r[reg := ReadWord(s.mem, a)])
  }

  function ExecLoadh(s: State, addr: Operand, offset: int, reg: Reg): State {
    var a := And(EffectiveAddress(s, addr, offset), Not(1));
    s.(r := s.r[reg := ReadHalf(s.mem, a)])
  }

  function ExecLoadb(s: State, addr: Operand, offset: int, reg: Reg): State {
    var a := EffectiveAddress(s, addr, offset);
    s.(r := s.r[reg := ReadByte(s.mem, a)])
  }

  function ExecStore(s: State, addr: Operand, offset: int, reg: Reg): State {
    var a := And(EffectiveAddress(s, addr, offset), Not(3));
    s.(mem := WriteWord(s.mem, a, s.r[reg]))
  }

  /** STOREH stores a whole word, with `write`. */
  function ExecStoreh(s: State, addr: Operand, offset: int, reg: Reg): State {
    var a := And(EffectiveAddress(s, addr, offset), Not(1));
    s.(mem := WriteWord(s.mem, a, s.r[reg]))
  }

  /** STOREB stores a whole word, with `write`. */
  function ExecStoreb(s: State, addr: Operand, offset: int, reg: Reg): State {
    var a := EffectiveAddress(s, addr, offset);
    s.(mem := WriteWord(s.mem, a, s.r[reg]))
  }

  /** POP reads the word at `r7 & 0x03`, then adds 4 to r7. */
  function ExecPop(s: State, dest: Reg): State {
    var s1 := s.(r := s.r[dest := ReadWord(s.mem, And(s.r[7], 3))]);
    s1.(r := s1.r[7 := s1.r[7] + 4])
  }

  /** PUSH subtracts 4 from r7, then writes `r[src] & 0x03` there. */
  function ExecPush(s: State, src: Reg): State {
    var s1 := s.(r := s.r[7 := s.r[7] - 4]);
    s1.(mem := WriteWord(s1.mem, s1.r[7], And(s1.r[src], 3)))
  }

  // ---------------------------------------------------------------------
  // Control flow
  // ---------------------------------------------------------------------

  function ExecJp(s: State, cond: Cond, target: Operand): State {
    if TestCond(s.sr, cond) then s.(pc := And(ValueOf(s, target), Not(3))) else s
  }

  function ExecJr(s: State, cond: Cond, offset: int): State {
    if TestCond(s.sr, cond) then s.(pc := And(s.pc + offset, Not(3))) else s
  }

  /** CALL pushes `pc & ~3` and jumps; a register target is read after r7 has moved. */
  function ExecCall(s: State, cond: Cond, target: Operand): State {
    if TestCond(s.sr, cond) then
      var s1 := s.(r := s.r[7 := s.r[7] - 4]);
      var s2 := s1.(mem := WriteWord(s1.mem, s1.r[7], And(s1.pc, Not(3))));
      s2.(pc := And(ValueOf(s2, target), Not(3)))
    else s
  }

  /**
   * RET pops pc.  RETI would set GIE; RETN sets the flag `_f.IIF`, which
   * does not exist, so `sr | undefined` leaves sr as its 32-bit value.
   */
  function ExecRet(s: State, cond: Cond, isReti: bool, isRetn: bool): State {
    if TestCond(s.sr, cond) then Return(s, isReti, isRetn) else s
  }

  /** A RET whose condition holds: pop pc, then the status update of RETI or RETN. */
  function Return(s: State, isReti: bool, isRetn: bool): State {
    var s1 := s.(pc := And(ReadWord(s.mem, s.r[7]), Not(3)));
    var s2 := s1.(r := s1.r[7 := s1.r[7] + 4]);
    s2.(sr := ReturnStatus(s2.sr, isReti, isRetn))
  }

  // The handlers with the longest bodies as constructor terms, one field at
  // a time, for the proofs of the `Cpu` methods.

  lemma AddWithCarryFields(s: State, src1: Reg, src2: Operand, dest: Reg, carry: int)
    ensures var a, b := s.r[src1], ValueOf(s, src2);
      var cv := CarryOut(a, b, carry);
      AddWithCarry(s, src1, src2, dest, carry) ==
        State(s.r[dest := And(a + b + carry, 0xFFFF_FFFF)], s.pc, ArithFlags(s.sr, cv.0, cv.1, a + b + carry), s.iif, s.mem, s.halted)
  {
  }

  lemma SbcFields(s: State, src1: Reg, src2: Operand, dest: Reg)
    ensures var a, b, carry := s.r[src1], ValueOf(s, src2), GetFlag(s.sr, C);
      var cv := SbcCarryOut(a, b, carry);
      ExecSbc(s, src1, src2, dest) ==
        State(s.r[dest := And(a - b - carry, 0xFFFF_FFFF)], s.pc, ArithFlags(s.sr, cv.0, cv.1, a - b - carry), s.iif, s.mem, s.halted)
  {
  }

  lemma CallFields(s: State, cond: Cond, target: Operand)
    requires TestCond(s.sr, cond)
    ensures var r := s.r[7 := s.r[7] - 4];
      ExecCall(s, cond, target) ==
        State(r, And(ValueOf(s.(r := r), target), Not(3)), s.sr, s.iif, WriteWord(s.mem, r[7], And(s.pc, Not(3))), s.halted)
  {
  }

  /** `Return` as a constructor term, one field at a time. */
  lemma ReturnFields(s: State, isReti: bool, isRetn: bool)
    ensures Return(s, isReti, isRetn) ==
      State(s.r[7 := s.r[7] + 4], And(ReadWord(s.mem, s.r[7]), Not(3)), ReturnStatus(s.sr, isReti, isRetn), s.iif, s.mem, s.halted)
  {
  }

  /** RETI sets GIE; RETN sets the flag `_f.IIF`, which does not exist: `sr | undefined`. */
  function ReturnStatus(sr: int, isReti: bool, isRetn: bool): int {
    if isReti then SetFlag(sr, GIE, true)
    else if isRetn then Or(sr, 0)
    else sr
  }

  /** HALT calls `stop()`. */
  function ExecHalt(s: State, cond: Cond): State {
    if TestCond(s.sr, cond) then s.(halted := true) else s
  }

  // ---------------------------------------------------------------------
  // Dispatch and the cycle
  // ---------------------------------------------------------------------

  /** The argument list has the shape the handler for op takes. */
  predicate Fits(op: Mnemonic, args: Args) {
    match op
    case MOVE => args.MoveArgs?
    case OR | AND | XOR | ADD | ADC | SUB | SBC | ROTL | ROTR | SHL | SHR | ASHR => args.AluArgs?
    case CMP => args.CmpArgs?
    case JP | CALL => args.JumpArgs?
    case JR => args.JrArgs?
    case RET => args.RetArgs?
    case LOAD | STORE | LOADB | STOREB | LOADH | STOREH => args.MemArgs?
    case POP | PUSH => args.StackArgs?
    case HALT => args.HaltArgs?
  }

  /** `this._i[op].apply(this, args)`. */
  function Execute(s: State, op: Mnemonic, args: Args): State
    requires Fits(op, args)
  {
    match op
    case MOVE => ExecMove(s, args.from, args.to)
    case OR => ExecOr(s, args.src1, args.src2, args.dest)
    case AND => ExecAnd(s, args.src1, args.src2, args.dest)
    case XOR => ExecXor(s, args.src1, args.src2, args.dest)
    case ADD => ExecAdd(s, args.src1, args.src2, args.dest)
    case ADC => ExecAdc(s, args.src1, args.src2, args.dest)
    case SUB => ExecSub(s, args.src1, args.src2, args.dest)
    case SBC => ExecSbc(s, args.src1, args.src2, args.dest)
    case ROTL => ExecRotl(s, args.src1, args.src2, args.dest)
    case ROTR => ExecRotr(s, args.src1, args.src2, args.dest)
    case SHL => ExecShl(s, args.src1, args.src2, args.dest)
    case SHR => ExecShr(s, args.src1, args.src2, args.dest)
    case ASHR => ExecAshr(s, args.src1, args.src2, args.dest)
    case CMP => ExecCmp(s, args.src1, args.src2)
    case JP => ExecJp(s, args.cond, args.target)
    case CALL => ExecCall(s, args.cond, args.target)
    case JR => ExecJr(s, args.cond, args.offset)
    case RET => ExecRet(s, args.cond, args.isReti, args.isRetn)
    case LOAD => ExecLoad(s, args.addr, args.offset, args.reg)
    case STORE => ExecStore(s, args.addr, args.offset, args.reg)
    case LOADB => ExecLoadb(s, args.addr, args.offset, args.reg)
    case STOREB => ExecStoreb(s, args.addr, args.offset, args.reg)
    case LOADH => ExecLoadh(s, args.addr, args.offset, args.reg)
    case STOREH => ExecStoreh(s, args.addr, args.offset, args.reg)
    case POP => ExecPop(s, args.reg)
    case PUSH => ExecPush(s, args.reg)
    case HALT => ExecHalt(s, args.cond)
  }

  /** What `performCycle` leaves: the next state, or the state in which it threw. */
  datatype Outcome = Executed(next: State) | Thrown(next: State)

  /**
   * `performCycle`: fetch the word at pc, decode it, run its handler and add
   * 4 to pc; an undecodable word calls `stop()` and throws, changing nothing else.
   */
  function Cycle(s: State): Outcome {
    var d := Decode(ReadWord(s.mem, s.pc));
    if d.op.None? || d.args.None? then Thrown(s.(halted := true))
    else
      DecodeFits(ReadWord(s.mem, s.pc));
      Executed(Step(s, d.op.value, d.args.value))
  }

  /** A decoded instruction runs its handler, then `this._r.pc += 4`. */
  function Step(s: State, op: Mnemonic, args: Args): State
    requires Fits(op, args)
  {
    var t := Execute(s, op, args);
    t.(pc := t.pc + 4)
  }

  /** `CPU.reset`: `stop()`, then every register 0 and iif 1; memory is not touched. */
  function Reset(s: State): State {
    State([0, 0, 0, 0, 0, 0, 0, 0], 0, 0, 1, s.mem, true)
  }

  // ---------------------------------------------------------------------
  // Decoding gives argument lists that fit
  // ---------------------------------------------------------------------

  /** Every instruction `_decode` accepts comes with the argument list its handler takes. */
  lemma DecodeFits(statement: int)
    ensures Decode(statement).op.Some? && Decode(statement).args.Some? ==>
      Fits(Decode(statement).op.value, Decode(statement).args.value)
  {
    DecodeAgrees(statement);
    var op := OpOfCode(Field(statement, 27, 5));
    if op.Some? {
      ReferenceFits(op.value, statement);
    }
  }

  lemma ReferenceFits(op: Mnemonic, statement: int)
    ensures ReferenceArgs(op, statement).Some? ==> Fits(op, ReferenceArgs(op, statement).value)
  {
    if IsAlu(op) || op == CMP {
      AluShapes(op, statement);
    } else if IsMemory(op) {
      MemoryShapes(op, statement);
    }
  }

  // ---------------------------------------------------------------------
  // The flags the arithmetic handlers leave
  // ---------------------------------------------------------------------

  /** C, V, N and Z read as given, and every bit of sr from 4 up (the interrupt flags) as before. */
  predicate FlagsAre(before: int, after: int, c: bool, v: bool, n: bool, z: bool) {
    && GetFlag(after, C) == BitValue(c)
    && GetFlag(after, V) == BitValue(v)
    && GetFlag(after, N) == BitValue(n)
    && GetFlag(after, Z) == BitValue(z)
    && forall j :: 4 <= j < 32 ==> Bit(after, j) == Bit(before, j)
  }

  /** The flag updates ending an arithmetic handler: N is the sign and Z the zero test of ToInt32(res). */
  lemma ArithFlagsRead(sr: int, carry: bool, overflow: bool, res: int)
    ensures FlagsAre(sr, ArithFlags(sr, carry, overflow, res), carry, overflow, ToInt32(res) < 0, ToInt32(res) == 0)
  {
    assert Pow2(0) == 1 && Pow2(1) == 2 && Pow2(2) == 4 && Pow2(3) == 8;
    var n, z := And(res, 0x8000_0000) != 0, And(res, 0xFFFF_FFFF) == 0;
    var sr1 := SetFlag(sr, C, carry);
    var sr2 := SetFlag(sr1, V, overflow);
    var sr3 := SetFlag(sr2, N, n);
    var sr4 := SetFlag(sr3, Z, z);
    SignBit(res);
    AndAllOnes(res);
    GetAfterSet(sr3, Z, 3, z);
    GetAfterSet(sr2, N, 0, n);
    GetAfterSetOther(sr3, Z, 3, z, N, 0);
    GetAfterSet(sr1, V, 2, overflow);
    GetAfterSetOther(sr2, N, 0, n, V, 2);
    GetAfterSetOther(sr3, Z, 3, z, V, 2);
    GetAfterSet(sr, C, 1, carry);
    GetAfterSetOther(sr1, V, 2, overflow, C, 1);
    GetAfterSetOther(sr2, N, 0, n, C, 1);
    GetAfterSetOther(sr3, Z, 3, z, C, 1);
    forall j | 4 <= j < 32
      ensures Bit(sr4, j) == Bit(sr, j)
    {
      SetFlagBits(sr, C, 1, carry, j);
      SetFlagBits(sr1, V, 2, overflow, j);
      SetFlagBits(sr2, N, 0, n, j);
      SetFlagBits(sr3, Z, 3, z, j);
    }
  }

  /**
   * With a carry-in of 0 or 1 the 27-bit masks never carry into bit 31, so
   * C and V both come out as "both operands are negative".
   */
  lemma CarryFromSigns(a: int, b: int, carry: int)
    requires 0 <= carry <= 1
    ensures CarryOut(a, b, carry) == (ToInt32(a) < 0 && ToInt32(b) < 0, ToInt32(a) < 0 && ToInt32(b) < 0)
  {
    NoCarryInto31(a, b, carry);
    SignOfShift31(a);
    SignOfShift31(b);
    var cLast := if ToInt32(a) < 0 && ToInt32(b) < 0 then 1 else 0;
    XorOfBits(0, cLast);
  }

  /** The 27-bit parts of the operands, plus a carry of 0 or 1, stay far below bit 31. */
  lemma NoCarryInto31(a: int, b: int, carry: int)
    requires 0 <= carry <= 1
    ensures And(Sar(And(a, 0x7FF_FFFF) + And(b, 0x7FF_FFFF) + carry, 31), 1) == 0
  {
    AndLow27(a);
    AndLow27(b);
    var sum := And(a, 0x7FF_FFFF) + And(b, 0x7FF_FFFF) + carry;
    SarSign31(sum);
    assert Pow2(1) == 2;
    AndLowMask(0, 1, 1);
    LowSelf(0, 1);
  }

  /** Only the register dest changed, to v: pc, iif, memory and the stopped state are as before. */
  predicate Wrote(s: State, t: State, dest: Reg, v: int) {
    t.r == s.r[dest := v] && t.pc == s.pc && t.iif == s.iif && t.mem == s.mem && t.halted == s.halted
  }

  /** The flags of ADD, ADC and SBC: C and V are "both operands negative", N and Z come from the result. */
  lemma CarryFlags(sr: int, a: int, b: int, carry: int, res: int)
    requires 0 <= carry <= 1
    ensures var cv := CarryOut(a, b, carry);
      var both := ToInt32(a) < 0 && ToInt32(b) < 0;
      FlagsAre(sr, ArithFlags(sr, cv.0, cv.1, res), both, both, ToInt32(res) < 0, ToInt32(res) == 0)
  {
    CarryFromSigns(a, b, carry);
    var both := ToInt32(a) < 0 && ToInt32(b) < 0;
    ArithFlagsRead(sr, both, both, res);
  }

  /** The flags an addition with a carry-in of 0 or 1 leaves, stated on the operands alone. */
  lemma AdderFlags(sr: int, a: int, b: int, carry: int)
    requires 0 <= carry <= 1
    ensures var both := ToInt32(a) < 0 && ToInt32(b) < 0;
      FlagsAre(sr, ArithFlags(sr, CarryOut(a, b, carry).0, CarryOut(a, b, carry).1, a + b + carry),
        both, both, ToInt32(a + b + carry) < 0, ToInt32(a + b + carry) == 0)
  {
    CarryFlags(sr, a, b, carry, a + b + carry);
  }

  /** An addition with carry-in 0 or 1 stores ToInt32(a + b + carry) and sets C and V both to "a and b are negative". */
  lemma AddWithCarryResult(s: State, src1: Reg, src2: Operand, dest: Reg, carry: int)
    requires 0 <= carry <= 1
    ensures var a, b, t := s.r[src1], ValueOf(s, src2), AddWithCarry(s, src1, src2, dest, carry);
      var both, v := ToInt32(a) < 0 && ToInt32(b) < 0, ToInt32(a + b + carry);
      Wrote(s, t, dest, v) && FlagsAre(s.sr, t.sr, both, both, v < 0, v == 0)
  {
    AndAllOnes(s.r[src1] + ValueOf(s, src2) + carry);
    AdderFlags(s.sr, s.r[src1], ValueOf(s, src2), carry);
  }

  /**
   * ADD stores ToInt32(a + b), sets C and V both to "a and b are negative",
   * and N and Z from the stored value.
   */
  lemma AddResult(s: State, src1: Reg, src2: Operand, dest: Reg)
    ensures var a, b, t := s.r[src1], ValueOf(s, src2), ExecAdd(s, src1, src2, dest);
      var both, v := ToInt32(a) < 0 && ToInt32(b) < 0, ToInt32(a + b);
      Wrote(s, t, dest, v) && FlagsAre(s.sr, t.sr, both, both, v < 0, v == 0)
  {
    AddWithCarryResult(s, src1, src2, dest, 0);
  }

  /** ADC adds the C flag too; its own carry and overflow are computed as ADD's. */
  lemma AdcResult(s: State, src1: Reg, src2: Operand, dest: Reg)
    ensures var a, b, t := s.r[src1], ValueOf(s, src2), ExecAdc(s, src1, src2, dest);
      var both, v := ToInt32(a) < 0 && ToInt32(b) < 0, ToInt32(a + b + GetFlag(s.sr, C));
      Wrote(s, t, dest, v) && FlagsAre(s.sr, t.sr, both, both, v < 0, v == 0)
  {
    AddWithCarryResult(s, src1, src2, dest, GetFlag(s.sr, C));
  }

  /** SUB stores ToInt32(a - b) and sets both C and V to "a - b exceeds 0xFFFFFFFF". */
  lemma SubResult(s: State, src1: Reg, src2: Operand, dest: Reg)
    ensures var res, t := s.r[src1] - ValueOf(s, src2), ExecSub(s, src1, src2, dest);
      var v := ToInt32(res);
      Wrote(s, t, dest, v) && FlagsAre(s.sr, t.sr, res > 0xFFFF_FFFF, res > 0xFFFF_FFFF, v < 0, v == 0)
  {
    AndAllOnes(s.r[src1] - ValueOf(s, src2) - 0);
    SubtractorFlags(s.sr, s.r[src1] - ValueOf(s, src2));
  }

  /** The flags SUB and CMP leave for a difference res. */
  lemma SubtractorFlags(sr: int, res: int)
    ensures FlagsAre(sr, ArithFlags(sr, res > 0xFFFF_FFFF, res > 0xFFFF_FFFF, res),
      res > 0xFFFF_FFFF, res > 0xFFFF_FFFF, ToInt32(res) < 0, ToInt32(res) == 0)
  {
    ArithFlagsRead(sr, res > 0xFFFF_FFFF, res > 0xFFFF_FFFF, res);
  }

  /**
   * CMP sets the flags SUB would and changes nothing else; so the EQ
   * condition holds exactly when the operands agree modulo 2^32, and N/M
   * when the 32-bit difference is negative.
   */
  lemma CmpConditions(s: State, src1: Reg, src2: Operand)
    ensures var res, t := s.r[src1] - ValueOf(s, src2), ExecCmp(s, src1, src2);
      && t.r == s.r && t.pc == s.pc && t.mem == s.mem && t.iif == s.iif && t.halted == s.halted
      && FlagsAre(s.sr, t.sr, res > 0xFFFF_FFFF, res > 0xFFFF_FFFF, ToInt32(res) < 0, ToInt32(res) == 0)
      && (TestCond(t.sr, IfZ) <==> ToInt32(res) == 0)
      && (TestCond(t.sr, IfN) <==> ToInt32(res) < 0)
      && (TestCond(t.sr, IfC) <==> res > 0xFFFF_FFFF)
  {
    var res := s.r[src1] - ValueOf(s, src2);
    SubtractorFlags(s.sr, res);
    ArithFlagsRead(s.sr, res > 0xFFFF_FFFF, res > 0xFFFF_FFFF, res);
  }

  /**
   * The carry and overflow SBC's adder gives when C is set beforehand.  The
   * negated carry is then -1, so the 27-bit sum `t1 + t2 - 1` is negative,
   * and carries into bit 31, exactly when the 27 low bits of both addends
   * are 0.
   */
  function BorrowCarry(a: int, nb: int): (bool, bool) {
    var low := Low(a, 27) == 0 && Low(nb, 27) == 0;
    var na, nn := ToInt32(a) < 0, ToInt32(nb) < 0;
    var c := (na && nn) || (low && (na || nn));
    (c, low != c)
  }

  /** SBC's C and V: "a and -b both negative" when C is clear, `BorrowCarry` when it is set. */
  function SbcCarry(a: int, b: int, carry: int): (bool, bool) {
    var nb := ToInt32(-ToInt32(b));
    if carry == 0 then (ToInt32(a) < 0 && nb < 0, ToInt32(a) < 0 && nb < 0)
    else BorrowCarry(a, nb)
  }

  /**
   * SBC stores ToInt32(a - b - C), sets N and Z from it, and sets C and V as
   * `SbcCarry` says, for either value of the C flag beforehand.
   */
  lemma SbcResult(s: State, src1: Reg, src2: Operand, dest: Reg)
    ensures var a, b, t := s.r[src1], ValueOf(s, src2), ExecSbc(s, src1, src2, dest);
      var v, cv := ToInt32(a - b - GetFlag(s.sr, C)), SbcCarry(a, b, GetFlag(s.sr, C));
      Wrote(s, t, dest, v) && FlagsAre(s.sr, t.sr, cv.0, cv.1, v < 0, v == 0)
  {
    SbcStores(s, src1, src2, dest);
    SbcFlags(s, src1, src2, dest);
  }

  lemma SbcStores(s: State, src1: Reg, src2: Operand, dest: Reg)
    ensures Wrote(s, ExecSbc(s, src1, src2, dest), dest, ToInt32(s.r[src1] - ValueOf(s, src2) - GetFlag(s.sr, C)))
  {
    AndAllOnes(s.r[src1] - ValueOf(s, src2) - GetFlag(s.sr, C));
  }

  lemma SbcFlags(s: State, src1: Reg, src2: Operand, dest: Reg)
    ensures var a, b, carry := s.r[src1], ValueOf(s, src2), GetFlag(s.sr, C);
      var v, cv := ToInt32(a - b - carry), SbcCarry(a, b, carry);
      FlagsAre(s.sr, ExecSbc(s, src1, src2, dest).sr, cv.0, cv.1, v < 0, v == 0)
  {
    SbcStatus(s, src1, src2, dest);
    SbcFlagValues(s.sr, s.r[src1], ValueOf(s, src2), GetFlag(s.sr, C));
  }

  /** The flags SBC leaves for operands a and b and a C flag of 0 or 1 beforehand. */
  lemma SbcFlagValues(sr: int, a: int, b: int, carry: int)
    requires carry == 0 || carry == 1
    ensures var cv, sc, v := SbcCarryOut(a, b, carry), SbcCarry(a, b, carry), ToInt32(a - b - carry);
      FlagsAre(sr, ArithFlags(sr, cv.0, cv.1, a - b - carry), sc.0, sc.1, v < 0, v == 0)
  {
    var nb := ToInt32(-ToInt32(b));
    if carry == 0 {
      SbcFlagsFromSum(sr, a, b, a - b - carry);
      assert SbcCarry(a, b, carry) == (ToInt32(a) < 0 && nb < 0, ToInt32(a) < 0 && nb < 0);
    } else {
      SbcFlagsWithBorrow(sr, a, b, a - b - carry);
      assert SbcCarry(a, b, carry) == BorrowCarry(a, nb);
    }
  }

  /** SBC's new `sr`: the four closing flag updates with `SbcCarryOut`. */
  lemma SbcStatus(s: State, src1: Reg, src2: Operand, dest: Reg)
    ensures var a, b, carry := s.r[src1], ValueOf(s, src2), GetFlag(s.sr, C);
      var cv := SbcCarryOut(a, b, carry);
      ExecSbc(s, src1, src2, dest).sr == ArithFlags(s.sr, cv.0, cv.1, a - b - carry)
  {
  }

  /**
   * With C set, SBC of 0 - 0 stores -1, yet it clears C and sets V: the
   * carry into bit 31 that the -1 carry produces is read as an overflow.
   */
  lemma SbcBorrowFromZero(s: State, src1: Reg, src2: Operand, dest: Reg)
    requires s.r[src1] == 0 && ValueOf(s, src2) == 0 && GetFlag(s.sr, C) == 1
    ensures Wrote(s, ExecSbc(s, src1, src2, dest), dest, -1)
    ensures FlagsAre(s.sr, ExecSbc(s, src1, src2, dest).sr, false, true, true, false)
  {
    SbcStores(s, src1, src2, dest);
    SbcFlags(s, src1, src2, dest);
    assert s.r[src1] - ValueOf(s, src2) - GetFlag(s.sr, C) == -1;
    Int32Id(-1);
    BorrowFromZero();
  }

  /** SBC's C and V for 0 - 0 with C set: no carry, but an overflow. */
  lemma BorrowFromZero()
    ensures SbcCarry(0, 0, 1) == (false, true)
  {
    Int32Id(0);
    Int32Id(-1);
    Pow2Of27();
    LowSelf(0, 27);
  }

  /** With a carry of 0, the addend of SBC is the 32-bit negation of b and its carry-in is 0. */
  lemma SbcFlagsFromSum(sr: int, a: int, b: int, res: int)
    ensures var cv := SbcCarryOut(a, b, 0);
      var both := ToInt32(a) < 0 && ToInt32(-ToInt32(b)) < 0;
      FlagsAre(sr, ArithFlags(sr, cv.0, cv.1, res), both, both, ToInt32(res) < 0, ToInt32(res) == 0)
  {
    var negB := ToInt32(-ToInt32(b));
    Int32Id(0);
    Int32Id(negB);
    CarryFlags(sr, a, negB, 0, res);
  }

  /** With C set, SBC's carry-in is ToInt32(-1) == -1, and its C and V are `BorrowCarry` of a and -b. */
  lemma SbcFlagsWithBorrow(sr: int, a: int, b: int, res: int)
    ensures var cv, bc := SbcCarryOut(a, b, 1), BorrowCarry(a, ToInt32(-ToInt32(b)));
      FlagsAre(sr, ArithFlags(sr, cv.0, cv.1, res), bc.0, bc.1, ToInt32(res) < 0, ToInt32(res) == 0)
  {
    Int32Id(1);
    Int32Id(-1);
    var nb := ToInt32(-ToInt32(b));
    CarryOutBorrow(a, nb);
    var bc := BorrowCarry(a, nb);
    ArithFlagsRead(sr, bc.0, bc.1, res);
  }

  /** With a carry-in of -1, the 27-bit sum carries into bit 31 exactly when both 27-bit parts are 0. */
  lemma CarryOutBorrow(a: int, b: int)
    ensures CarryOut(a, b, -1) == BorrowCarry(a, b)
  {
    AndLow27(a);
    AndLow27(b);
    var t1, t2 := And(a, 0x7FF_FFFF), And(b, 0x7FF_FFFF);
    BorrowIntoBit31(t1, t2);
    SignOfShift31(a);
    SignOfShift31(b);
  }

  /** `((t1 + t2 - 1) >> 31) & 1` for two 27-bit numbers: 1 only when both are 0. */
  lemma BorrowIntoBit31(t1: int, t2: int)
    requires 0 <= t1 < 0x800_0000 && 0 <= t2 < 0x800_0000
    ensures And(Sar(t1 + t2 - 1, 31), 1) == if t1 == 0 && t2 == 0 then 1 else 0
  {
    Pow2Of31();
    var sum := t1 + t2 - 1;
    SarSign31(sum);
    assert Pow2(1) == 2;
    AndLowMask(Sar(sum, 31), 1, 1);
    assert Low(-1, 1) == 1 && Low(0, 1) == 0;
  }

  /** SBC's negation `(~x + 1) & 0xFFFFFFFF` is the 32-bit two's complement negation of x. */
  lemma Negation(x: int)
    ensures And(Not(x) + 1, 0xFFFF_FFFF) == ToInt32(-ToInt32(x))
  {
    AndAllOnes(Not(x) + 1);
  }

  /** AND, OR and XOR store their 32-bit result, clear C and V, and set N and Z from it. */
  lemma LogicResult(s: State, op: Mnemonic, src1: Reg, src2: Operand, dest: Reg)
    requires op in {AND, OR, XOR}
    ensures var a, b := s.r[src1], ValueOf(s, src2);
      var res := if op == AND then And(a, b) else if op == OR then Or(a, b) else Xor(a, b);
      var t := Execute(s, op, AluArgs(src1, src2, dest));
      Wrote(s, t, dest, res) && FlagsAre(s.sr, t.sr, false, false, res < 0, res == 0)
  {
    if op == AND {
      LogicFlags(s.sr, And(s.r[src1], ValueOf(s, src2)));
    } else if op == OR {
      LogicFlags(s.sr, Or(s.r[src1], ValueOf(s, src2)));
    } else {
      LogicFlags(s.sr, Xor(s.r[src1], ValueOf(s, src2)));
    }
  }

  /** A 32-bit result is stored as it is and leaves C and V clear. */
  lemma LogicFlags(sr: int, res: int)
    requires IsInt32(res)
    ensures And(res, 0xFFFF_FFFF) == res
    ensures FlagsAre(sr, ArithFlags(sr, false, false, res), false, false, res < 0, res == 0)
  {
    AndAllOnes(res);
    Int32Id(res);
    ArithFlagsRead(sr, false, false, res);
  }
}
