/**
 * What the shift, move, memory, stack and control-flow handlers amount to,
 * and what one `performCycle` does with pc.  Each handler in `Handlers` is
 * written operator by operator as the emulator writes it; the lemmas here
 * state its effect in plain terms: the value stored, the flags left, and
 * that nothing else changes.
 */
module HandlerLaws {
  import opened JsNum
  import opened BitStrings
  import opened Flags
  import opened Mem
  import opened Decoder
  import opened Handlers

  // ---------------------------------------------------------------------
  // Shifts and rotations
  // ---------------------------------------------------------------------

  /** ROTL's and ROTR's high-word mask `0xFFFFFFFF00000000` is 0 as a 32-bit pattern. */
  lemma HighMaskWraps(m: int)
    requires m == HIGH_WORD_MASK
    ensures ToUint32(m) == 0
  {
    Uint32Shift(0, 0xFFFF_FFFF);
    assert 0 + TWO32 * 0xFFFF_FFFF == m;
  }

  /** `x & 0xFFFFFFFF00000000` is always 0. */
  lemma AndHighMask(x: int)
    ensures And(x, HIGH_WORD_MASK) == 0
  {
    HighMaskWraps(HIGH_WORD_MASK);
    AndWrappedMask(x, HIGH_WORD_MASK);
  }

  /** Shifting by 32 is shifting by 0: `x << 32` and `x >> 32` are ToInt32(x). */
  lemma ShiftBy32(x: int)
    ensures Shl(x, 32) == ToInt32(x) && Sar(x, 32) == ToInt32(x)
  {
    ShiftByZero(x, 32);
  }

  /** `ToInt32(x) >> n` is `x >> n`. */
  lemma SarOfInt32(x: int, n: int)
    ensures Sar(ToInt32(x), n) == Sar(x, n)
  {
    Int32Id(ToInt32(x));
  }

  /**
   * SHL stores `a << b` and clears C (the test `res & 0x100000000` is always
   * 0) and V; N and Z come from the stored value.
   */
  lemma ShlResult(s: State, src1: Reg, src2: Operand, dest: Reg)
    ensures var v, t := Shl(s.r[src1], ValueOf(s, src2)), ExecShl(s, src1, src2, dest);
      Wrote(s, t, dest, v) && FlagsAre(s.sr, t.sr, false, false, v < 0, v == 0)
  {
    var res := Shl(s.r[src1], ValueOf(s, src2));
    AndTwo32(res);
    AndAllOnes(res);
    Int32Id(res);
    ShiftFlags(s.sr, res, false);
  }

  /** The flags a 32-bit shift result leaves: C as given, V clear, N and Z from the result. */
  lemma ShiftFlags(sr: int, res: int, carry: bool)
    requires IsInt32(res)
    ensures FlagsAre(sr, ArithFlags(sr, carry, false, res), carry, false, res < 0, res == 0)
  {
    Int32Id(res);
    ArithFlagsRead(sr, carry, false, res);
  }

  /**
   * ROTL is SHL: its carry test is SHL's, and the rotated-in high part
   * `(res & 0xFFFFFFFF00000000) >> 32` is always 0.
   */
  lemma RotlIsShl(s: State, src1: Reg, src2: Operand, dest: Reg)
    ensures ExecRotl(s, src1, src2, dest) == ExecShl(s, src1, src2, dest)
  {
    var res := Shl(s.r[src1], ValueOf(s, src2));
    AndHighMask(res);
    ShiftBy32(0);
    AndAllOnes(res);
    Int32Id(res);
    OrZero(res);
  }

  /** The four flag updates of SHR: C, V, N, then C again; Z is never written. */
  function ShrFlagUpdates(sr: int, res: int, res2: int): int {
    var sr1 := SetFlag(sr, C, And(res, 0x8000_0000) != 0);
    var sr2 := SetFlag(sr1, V, false);
    var sr3 := SetFlag(sr2, N, And(res2, 0x8000_0000) != 0);
    SetFlag(sr3, C, And(res2, 0xFFFF_FFFF) == 0)
  }

  /** SHR's flags: C ends up as "the result is 0", V clear, N the sign, and Z as it was. */
  lemma ShrFlags(sr: int, res: int, res2: int)
    ensures var v := ToInt32(res2);
      FlagsAre(sr, ShrFlagUpdates(sr, res, res2), v == 0, false, v < 0, GetFlag(sr, Z) != 0)
  {
    assert Pow2(0) == 1 && Pow2(1) == 2 && Pow2(2) == 4 && Pow2(3) == 8;
    var c1, n, z := And(res, 0x8000_0000) != 0, And(res2, 0x8000_0000) != 0, And(res2, 0xFFFF_FFFF) == 0;
    var sr1 := SetFlag(sr, C, c1);
    var sr2 := SetFlag(sr1, V, false);
    var sr3 := SetFlag(sr2, N, n);
    var sr4 := SetFlag(sr3, C, z);
    SignBit(res2);
    AndAllOnes(res2);
    GetAfterSet(sr3, C, 1, z);
    GetAfterSet(sr2, N, 0, n);
    GetAfterSetOther(sr3, C, 1, z, N, 0);
    GetAfterSet(sr1, V, 2, false);
    GetAfterSetOther(sr2, N, 0, n, V, 2);
    GetAfterSetOther(sr3, C, 1, z, V, 2);
    GetAfterSetOther(sr, C, 1, c1, Z, 3);
    GetAfterSetOther(sr1, V, 2, false, Z, 3);
    GetAfterSetOther(sr2, N, 0, n, Z, 3);
    GetAfterSetOther(sr3, C, 1, z, Z, 3);
    GetFlagBit(sr, Z, 3);
    forall j | 4 <= j < 32
      ensures Bit(sr4, j) == Bit(sr, j)
    {
      SetFlagBits(sr, C, 1, c1, j);
      SetFlagBits(sr1, V, 2, false, j);
      SetFlagBits(sr2, N, 0, n, j);
      SetFlagBits(sr3, C, 1, z, j);
    }
  }

  /**
   * SHR stores `a >> b`, an arithmetic shift: the vacated bits copy the
   * sign.  C is overwritten with "the result is 0", V is cleared, N is the
   * sign, and Z keeps its old value.
   */
  lemma ShrResult(s: State, src1: Reg, src2: Operand, dest: Reg)
    ensures var v, t := Sar(s.r[src1], ValueOf(s, src2)), ExecShr(s, src1, src2, dest);
      Wrote(s, t, dest, v) && FlagsAre(s.sr, t.sr, v == 0, false, v < 0, GetFlag(s.sr, Z) != 0)
  {
    var a := Shl(s.r[src1], 32);
    var res := Sar(a, ValueOf(s, src2));
    ShiftBy32(s.r[src1]);
    SarOfInt32(s.r[src1], ValueOf(s, src2));
    ShiftBy32(res);
    Int32Id(res);
    AndAllOnes(res);
    assert ExecShr(s, src1, src2, dest).sr == ShrFlagUpdates(s.sr, res, Sar(res, 32));
    ShrFlags(s.sr, res, Sar(res, 32));
  }

  /**
   * ASHR stores its source unshifted, as ToInt32(a): the result is `src1 >> 32`
   * and the sign term is 0.  C, N and Z all come from that value: C and N
   * are its sign, Z whether it is 0; V is cleared.
   */
  lemma AshrResult(s: State, src1: Reg, src2: Operand, dest: Reg)
    ensures var v, t := ToInt32(s.r[src1]), ExecAshr(s, src1, src2, dest);
      Wrote(s, t, dest, v) && FlagsAre(s.sr, t.sr, v < 0, false, v < 0, v == 0)
  {
    var v := ToInt32(s.r[src1]);
    AshrParts(s.r[src1], ValueOf(s, src2));
    AndAllOnes(v);
    Int32Id(v);
    assert ExecAshr(s, src1, src2, dest).sr == ArithFlags(s.sr, v < 0, false, v);
    ShiftFlags(s.sr, v, v < 0);
  }

  /** The intermediate values of ASHR: the carry test reads the sign, and the result is ToInt32(x). */
  lemma AshrParts(x: int, n: int)
    ensures var a := Shl(x, 32);
      && (And(Sar(a, n), 0x8000_0000) != 0) == (ToInt32(x) < 0)
      && Or(Sar(a, 32), And(0, 0x8000_0000)) == ToInt32(x)
  {
    var a := Shl(x, 32);
    ShiftBy32(x);
    ShiftBy32(a);
    Int32Id(ToInt32(x));
    CombineZeroLeft(ToUint32(0x8000_0000), 32);
    assert And(0, 0x8000_0000) == 0;
    OrZero(ToInt32(x));
    SignBit(Sar(a, n));
    Int32Id(Sar(a, n));
  }

  /**
   * ROTR stores `a >> b`, the arithmetic shift, not a rotation: the
   * re-assembly `((res & 0xFFFFFFFF) << 32 | res & 0xFFFFFFFF00000000) >> 32`
   * gives back res.  C and N are its sign, Z whether it is 0; V is cleared.
   */
  lemma RotrResult(s: State, src1: Reg, src2: Operand, dest: Reg)
    ensures var v, t := Sar(s.r[src1], ValueOf(s, src2)), ExecRotr(s, src1, src2, dest);
      Wrote(s, t, dest, v) && FlagsAre(s.sr, t.sr, v < 0, false, v < 0, v == 0)
  {
    var a := Shl(s.r[src1], 32);
    var res := Sar(a, ValueOf(s, src2));
    ShiftBy32(s.r[src1]);
    SarOfInt32(s.r[src1], ValueOf(s, src2));
    Int32Id(res);
    AndAllOnes(res);
    ShiftBy32(res);
    AndHighMask(res);
    OrZero(res);
    ShiftBy32(res);
    SignBit(res);
    assert ExecRotr(s, src1, src2, dest).sr == ArithFlags(s.sr, res < 0, false, res);
    ShiftFlags(s.sr, res, res < 0);
  }

  /** SHR and ROTR store the same value: both are the arithmetic right shift. */
  lemma ShrRotrStoreAlike(s: State, src1: Reg, src2: Operand, dest: Reg)
    ensures ExecShr(s, src1, src2, dest).r == ExecRotr(s, src1, src2, dest).r
    ensures ExecShr(s, src1, src2, dest).r[dest] == Sar(s.r[src1], ValueOf(s, src2))
  {
    ShrResult(s, src1, src2, dest);
    RotrResult(s, src1, src2, dest);
  }

  // ---------------------------------------------------------------------
  // MOVE
  // ---------------------------------------------------------------------

  /**
   * MOVE between registers (the only form `_decode` produces) copies the
   * value unmasked, so an immediate keeps its sign as a JavaScript number;
   * no flag changes.
   */
  lemma MoveResult(s: State, src: Operand, dest: Reg)
    ensures Wrote(s, ExecMove(s, FromOperand(src), ToRegister(dest)), dest, ValueOf(s, src))
    ensures ExecMove(s, FromOperand(src), ToRegister(dest)).sr == s.sr
  {
  }

  /**
   * The status-register forms: from sr only its low byte is copied; into sr
   * the low byte of the source replaces the whole register, interrupt
   * flags included.
   */
  lemma MoveStatusRegister(s: State, src: Operand, dest: Reg)
    ensures ExecMove(s, FromSr, ToRegister(dest)).r[dest] == Low(s.sr, 8)
    ensures ExecMove(s, FromOperand(src), ToSr).sr == Low(ValueOf(s, src), 8)
    ensures 0 <= Low(ValueOf(s, src), 8) < 0x100
  {
    AndByte(s.sr);
    AndByte(ValueOf(s, src));
  }

  // ---------------------------------------------------------------------
  // Loads and stores
  // ---------------------------------------------------------------------

  /** `x & ~3` clears the two low bits of ToInt32(x); `x & ~1` clears bit 0. */
  lemma AlignDown(x: int)
    ensures And(x, Not(3)) == ToInt32(x) - Low(x, 2)
    ensures And(x, Not(1)) == ToInt32(x) - Low(x, 1)
  {
    assert Pow2(1) == 2 && Pow2(2) == 4;
    AndClearLow(x, 2, 3);
    AndClearLow(x, 1, 1);
  }

  /** The low two bits of x are x mod 4, the low bit x mod 2. */
  lemma LowTwoBits(x: int)
    ensures Low(x, 2) == x % 4 && Low(x, 1) == x % 2
  {
    var q, r0 := x / 2, x % 2;
    var q2, r1 := q / 2, q % 2;
    assert Low(x, 2) == 2 * r1 + r0;
    assert x == 4 * q2 + (2 * r1 + r0);
  }

  /**
   * In the immediate-address form (bit 26 clear) `_decode` gives a number
   * as the address and 0 as the offset; the handlers only add a register's
   * value and a numeric offset, so the effective address is 0 whatever the
   * immediate holds.
   */
  lemma ImmediateFormAddressesZero(s: State, statement: int)
    requires !Bit(statement, 26) && Decode(statement).op.Some? && IsMemory(Decode(statement).op.value)
    ensures Decode(statement).args.Some? && Decode(statement).args.value.MemArgs?
    ensures var a := Decode(statement).args.value; EffectiveAddress(s, a.addr, a.offset) == 0
  {
    DecodeAgrees(statement);
    MemoryShapes(Decode(statement).op.value, statement);
  }

  /** In the register form the effective address is the base register plus the signed 20-bit offset. */
  lemma RegisterFormAddress(s: State, statement: int)
    requires Bit(statement, 26) && Decode(statement).op.Some? && IsMemory(Decode(statement).op.value)
    ensures Decode(statement).args.Some? && Decode(statement).args.value.MemArgs?
    ensures var a := Decode(statement).args.value;
      EffectiveAddress(s, a.addr, a.offset) == s.r[RegAt(statement, 20)] + SignedImmediate(statement)
  {
    DecodeAgrees(statement);
    MemoryShapes(Decode(statement).op.value, statement);
  }

  /** Only the memory changed: registers, flags, pc, iif and the stopped state are as before. */
  predicate Stored(s: State, t: State) {
    t.r == s.r && t.pc == s.pc && t.sr == s.sr && t.iif == s.iif && t.halted == s.halted
  }

  /** LOAD reads the signed word at `ea & ~3`, the address with bits 0-1 cleared (`AlignDown`). */
  lemma LoadResult(s: State, addr: Operand, offset: int, reg: Reg)
    ensures var v := ReadWord(s.mem, And(EffectiveAddress(s, addr, offset), Not(3)));
      var t := ExecLoad(s, addr, offset, reg);
      Wrote(s, t, reg, v) && t.sr == s.sr && IsInt32(v)
  {
    ReadRanges(s.mem, And(EffectiveAddress(s, addr, offset), Not(3)));
  }

  /** LOADH reads the unsigned half-word at `ea & ~1`, the address with bit 0 cleared (`AlignDown`). */
  lemma LoadhResult(s: State, addr: Operand, offset: int, reg: Reg)
    ensures var v := ReadHalf(s.mem, And(EffectiveAddress(s, addr, offset), Not(1)));
      var t := ExecLoadh(s, addr, offset, reg);
      Wrote(s, t, reg, v) && t.sr == s.sr && 0 <= v < 0x1_0000
  {
    ReadRanges(s.mem, And(EffectiveAddress(s, addr, offset), Not(1)));
  }

  /** LOADB reads the byte at the address itself. */
  lemma LoadbResult(s: State, addr: Operand, offset: int, reg: Reg)
    ensures var ea := EffectiveAddress(s, addr, offset);
      var v := ReadByte(s.mem, ea);
      var t := ExecLoadb(s, addr, offset, reg);
      Wrote(s, t, reg, v) && t.sr == s.sr && 0 <= v < 0x100
  {
  }

  /**
   * After a store of value v at address a, the word read back at a is
   * ToInt32(v), and every byte outside a .. a+3 reads as before.
   */
  ghost predicate WroteWord(before: Image, after: Image, a: int, v: int) {
    && ReadWord(after, a) == ToInt32(v)
    && forall b :: !(a <= b < a + 4) ==> ReadByte(after, b) == ReadByte(before, b)
  }

  lemma WriteWordEffect(m: Image, a: int, v: int)
    ensures WroteWord(m, WriteWord(m, a, v), a, v)
  {
    WriteWordThenRead(m, a, v);
    WriteWordFrame(m, a, v);
  }

  /** Writing a word changes only memory, as `WroteWord` says. */
  lemma StoreAt(s: State, a: int, v: int)
    ensures Stored(s, s.(mem := WriteWord(s.mem, a, v))) && WroteWord(s.mem, WriteWord(s.mem, a, v), a, v)
  {
    WriteWordEffect(s.mem, a, v);
  }

  /**
   * STORE writes the register's 32-bit value at `ea & ~3`, the address with
   * bits 0-1 cleared (`AlignDown`).
   */
  lemma StoreResult(s: State, addr: Operand, offset: int, reg: Reg)
    ensures var ea := EffectiveAddress(s, addr, offset);
      var t := ExecStore(s, addr, offset, reg);
      Stored(s, t) && WroteWord(s.mem, t.mem, And(ea, Not(3)), s.r[reg])
  {
    StoreAt(s, And(EffectiveAddress(s, addr, offset), Not(3)), s.r[reg]);
  }

  /**
   * STOREH writes all four bytes of the register, not a half-word, at
   * `ea & ~1`, the address with bit 0 cleared (`AlignDown`).
   */
  lemma StorehResult(s: State, addr: Operand, offset: int, reg: Reg)
    ensures var ea := EffectiveAddress(s, addr, offset);
      var t := ExecStoreh(s, addr, offset, reg);
      Stored(s, t) && WroteWord(s.mem, t.mem, And(ea, Not(1)), s.r[reg])
  {
    StoreAt(s, And(EffectiveAddress(s, addr, offset), Not(1)), s.r[reg]);
  }

  /** STOREB writes all four bytes of the register, at the unaligned address. */
  lemma StorebResult(s: State, addr: Operand, offset: int, reg: Reg)
    ensures var ea := EffectiveAddress(s, addr, offset);
      var t := ExecStoreb(s, addr, offset, reg);
      Stored(s, t) && WroteWord(s.mem, t.mem, ea, s.r[reg])
  {
    var ea := EffectiveAddress(s, addr, offset);
    assert ExecStoreb(s, addr, offset, reg) == s.(mem := WriteWord(s.mem, ea, s.r[reg]));
    StoreAt(s, ea, s.r[reg]);
  }

  // ---------------------------------------------------------------------
  // The stack
  // ---------------------------------------------------------------------

  /** PUSH moves r7 down by 4 and writes there the two low bits of the register, `r[src] & 0x03`. */
  lemma PushResult(s: State, src: Reg)
    ensures var t := ExecPush(s, src);
      && t.r == s.r[7 := s.r[7] - 4] && t.pc == s.pc && t.sr == s.sr && t.halted == s.halted
      && WroteWord(s.mem, t.mem, s.r[7] - 4, Low(s.r[src] - (if src == 7 then 4 else 0), 2))
  {
    var v := (if src == 7 then s.r[7] - 4 else s.r[src]);
    AndLowMask(v, 2, 3);
    LowBound(v, 2);
    Int32Id(Low(v, 2));
    WriteWordEffect(s.mem, s.r[7] - 4, And(v, 3));
  }

  /**
   * POP reads the word at `r7 & 0x03`, an address in 0 .. 3, not the top of
   * the stack, and then adds 4 to r7 (after the load, when the destination
   * is r7 itself).
   */
  lemma PopResult(s: State, dest: Reg)
    ensures var w := ReadWord(s.mem, Low(s.r[7], 2));
      var t := ExecPop(s, dest);
      && t.r == s.r[dest := w][7 := (if dest == 7 then w else s.r[7]) + 4]
      && t.pc == s.pc && t.sr == s.sr && t.mem == s.mem && t.halted == s.halted
      && 0 <= Low(s.r[7], 2) < 4
  {
    AndLowMask(s.r[7], 2, 3);
    LowBound(s.r[7], 2);
  }

  /** PUSH then POP of another register than r7 leaves r7 where it was. */
  lemma PushPopStackPointer(s: State, src: Reg, dest: Reg)
    requires dest != 7
    ensures ExecPop(ExecPush(s, src), dest).r[7] == s.r[7]
  {
  }

  /**
   * PUSH then POP does not give the register back: with r7 = 0x1000 and
   * nothing in memory, PUSH stores at 0xFFC but POP reads the empty word at
   * `0xFFC & 3`, address 0, so the register comes back as 0 whatever it held.
   */
  lemma PushPopLosesValue(s: State, reg: Reg)
    requires s.r[7] == 0x1000 && s.mem == map[] && reg != 7
    ensures ExecPop(ExecPush(s, reg), reg).r[reg] == 0
  {
    var m := WriteWord(map[], 0xFFC, And(s.r[reg], 3));
    var t := ExecPush(s, reg);
    assert t.mem == m && t.r[7] == 0xFFC;
    assert Pow2(2) == 4;
    AndLowMask(0xFFC, 2, 3);
    WriteWordFrame(map[], 0xFFC, And(s.r[reg], 3));
    ReadEmptyWord(m, 0);
    assert ExecPop(t, reg).r[reg] == ReadWord(m, 0);
  }

  /** A word none of whose four bytes is stored reads as 0. */
  lemma ReadEmptyWord(m: Image, a: int)
    requires forall b :: a <= b < a + 4 ==> ReadByte(m, b) == 0
    ensures ReadWord(m, a) == 0
  {
    ReadWordHalves(m, a);
    ReadHalfBytes(m, a);
    ReadHalfBytes(m, a + 2);
    assert ReadByte(m, a) == 0 && ReadByte(m, a + 1) == 0;
    assert ReadByte(m, a + 2) == 0 && ReadByte(m, a + 3) == 0;
    Int32Id(0);
  }

  // ---------------------------------------------------------------------
  // Jumps, calls, returns and HALT
  // ---------------------------------------------------------------------

  /** JP: when the condition holds pc becomes the target with bits 0-1 cleared; otherwise nothing changes. */
  lemma JpResult(s: State, cond: Cond, target: Operand)
    ensures var t := ExecJp(s, cond, target);
      var to := ValueOf(s, target);
      if TestCond(s.sr, cond) then t == s.(pc := ToInt32(to) - Low(to, 2)) else t == s
  {
    AlignDown(ValueOf(s, target));
  }

  /** JR: when the condition holds pc becomes pc + offset with bits 0-1 cleared. */
  lemma JrResult(s: State, cond: Cond, offset: int)
    ensures var t := ExecJr(s, cond, offset);
      if TestCond(s.sr, cond) then t == s.(pc := ToInt32(s.pc + offset) - Low(s.pc + offset, 2)) else t == s
  {
    AlignDown(s.pc + offset);
  }

  /**
   * A taken JR from an aligned pc by an offset that is a multiple of 4
   * lands exactly offset bytes away, backwards for a negative offset, as
   * long as the sum stays a non-negative 31-bit number.
   */
  lemma JrRelative(s: State, cond: Cond, offset: int)
    requires TestCond(s.sr, cond) && s.pc % 4 == 0 && offset % 4 == 0 && 0 <= s.pc + offset < TWO31
    ensures ExecJr(s, cond, offset).pc == s.pc + offset
  {
    JrResult(s, cond, offset);
    LowTwoBits(s.pc + offset);
    Int32Id(s.pc + offset);
  }

  /**
   * CALL: when the condition holds r7 moves down by 4, the word there
   * becomes the CALL's own address `pc & ~3` (the cycle adds 4 only after
   * the handler), and pc becomes `target & ~3`, the target with bits 0-1
   * cleared (`AlignDown`); the target is read after r7 has moved.
   */
  lemma CallResult(s: State, cond: Cond, target: Operand)
    ensures var t := ExecCall(s, cond, target);
      var s1 := s.(r := s.r[7 := s.r[7] - 4]);
      var to := ValueOf(s1, target);
      if TestCond(s.sr, cond) then
        && t.r == s1.r && t.sr == s.sr && t.pc == And(to, Not(3))
        && WroteWord(s.mem, t.mem, s.r[7] - 4, And(s.pc, Not(3)))
      else t == s
  {
    if TestCond(s.sr, cond) {
      WriteWordEffect(s.mem, s.r[7] - 4, And(s.pc, Not(3)));
    }
  }

  /**
   * RET: when the condition holds pc becomes `w & ~3` for the word w at r7
   * (bits 0-1 cleared, `AlignDown`) and r7 moves up by 4.  RETN would set `_f.IIF`, which is
   * undefined, so sr keeps its value (as a 32-bit number).
   */
  lemma RetResult(s: State, cond: Cond, isReti: bool, isRetn: bool)
    ensures !TestCond(s.sr, cond) ==> ExecRet(s, cond, isReti, isRetn) == s
    ensures TestCond(s.sr, cond) ==>
      var t := ExecRet(s, cond, isReti, isRetn);
      t.pc == And(ReadWord(s.mem, s.r[7]), Not(3)) && t.r == s.r[7 := s.r[7] + 4] && t.mem == s.mem
  {
  }

  /** The status register after a taken RET, RETI (GIE set) or RETN (unchanged, as a 32-bit number). */
  lemma RetStatus(s: State, cond: Cond, isReti: bool, isRetn: bool)
    requires TestCond(s.sr, cond)
    ensures ExecRet(s, cond, isReti, isRetn).sr ==
      if isReti then SetFlag(s.sr, GIE, true) else if isRetn then ToInt32(s.sr) else s.sr
  {
    OrZero(s.sr);
  }

  /**
   * An unconditional CALL followed by an unconditional RET comes back to
   * the CALL's own address `pc & ~3` with r7 where it was; the cycle then
   * adds 4, so execution resumes after the CALL.
   */
  lemma CallThenRet(s: State, target: Operand)
    ensures var t := ExecRet(ExecCall(s, Always, target), Always, false, false);
      t.pc == And(s.pc, Not(3)) && t.r == s.r && t.sr == s.sr
  {
    var s1 := s.(r := s.r[7 := s.r[7] - 4]);
    var s2 := ExecCall(s, Always, target);
    WriteWordThenRead(s.mem, s.r[7] - 4, And(s.pc, Not(3)));
    Int32Id(And(s.pc, Not(3)));
    AndIdempotent(s.pc, Not(3));
    assert s2.r[7] + 4 == s.r[7];
    assert s2.r[7 := s2.r[7] + 4] == s.r;
  }

  /** An unconditional HALT always stops, whatever the flags. */
  lemma HaltAlwaysStops(s: State)
    ensures ExecHalt(s, Always) == s.(halted := true)
  {
  }

  /** A conditional HALT stops exactly when its condition holds and changes nothing else. */
  lemma HaltResult(s: State, cond: Cond)
    ensures ExecHalt(s, cond).halted == (s.halted || TestCond(s.sr, cond))
    ensures ExecHalt(s, cond).(halted := s.halted) == s
  {
  }

  // ---------------------------------------------------------------------
  // The cycle
  // ---------------------------------------------------------------------

  /** The operations that may write pc. */
  predicate IsJump(op: Mnemonic) {
    op in {JP, JR, CALL, RET}
  }

  /** Every handler but those of the jumps, calls and returns leaves pc alone. */
  lemma OnlyJumpsMovePc(s: State, op: Mnemonic, args: Args)
    requires Fits(op, args) && !IsJump(op)
    ensures Execute(s, op, args).pc == s.pc
  {
    if IsAlu(op) || op == CMP {
      AluKeepsPc(s, op, args);
    } else if op == MOVE {
    } else {
      OtherKeepsPc(s, op, args);
    }
  }

  lemma AluKeepsPc(s: State, op: Mnemonic, args: Args)
    requires Fits(op, args) && (IsAlu(op) || op == CMP)
    ensures Execute(s, op, args).pc == s.pc
  {
  }

  lemma OtherKeepsPc(s: State, op: Mnemonic, args: Args)
    requires Fits(op, args) && (IsMemory(op) || op in {POP, PUSH, HALT})
    ensures Execute(s, op, args).pc == s.pc
  {
  }

  /**
   * `performCycle` on a decodable word runs its handler and then adds 4 to
   * pc: an instruction other than a jump ends at pc + 4, a jump at the pc
   * its handler left plus 4 (so a taken JP ends at its target + 4).
   */
  lemma CycleAdvances(s: State)
    ensures var d := Decode(ReadWord(s.mem, s.pc));
      Cycle(s).Executed? <==> d.op.Some? && d.args.Some?
    ensures var d := Decode(ReadWord(s.mem, s.pc));
      Cycle(s).Executed? && !IsJump(d.op.value) ==> Cycle(s).next.pc == s.pc + 4
  {
    var d := Decode(ReadWord(s.mem, s.pc));
    if d.op.Some? && d.args.Some? {
      DecodeFits(ReadWord(s.mem, s.pc));
      if !IsJump(d.op.value) {
        OnlyJumpsMovePc(s, d.op.value, d.args.value);
      }
    }
  }

  /** A taken unconditional JP ends the cycle at the target with bits 0-1 cleared, plus 4. */
  lemma CycleJump(s: State, target: Operand)
    requires Decode(ReadWord(s.mem, s.pc)) == Decoded(Some(JP), Some(JumpArgs(Always, target)))
    ensures Cycle(s).Executed?
    ensures Cycle(s).next.pc == ToInt32(ValueOf(s, target)) - Low(ValueOf(s, target), 2) + 4
  {
    JpResult(s, Always, target);
  }

  /**
   * A word with an unused opcode (01110, 01111, 11100, 11101, 11110), or a
   * JP, CALL, JR, RET or HALT with condition field 1111, makes
   * `performCycle` call `stop()` and throw, with no handler run and pc
   * unchanged.
   */
  lemma CycleRejects(s: State)
    ensures var w := ReadWord(s.mem, s.pc);
      var code := Field(w, 27, 5);
      (code in {14, 15, 28, 29, 30} || (code in {24, 25, 26, 27, 31} && Field(w, 22, 4) == 15))
        <==> Cycle(s) == Thrown(s.(halted := true))
  {
    DecodeFails(ReadWord(s.mem, s.pc));
  }

  /** `CPU.reset` zeroes r0-r7, pc and sr, sets iif, stops, and leaves memory alone. */
  lemma ResetResult(s: State)
    ensures var t := Reset(s);
      && (forall i :: 0 <= i < 8 ==> t.r[i] == 0)
      && t.pc == 0 && t.sr == 0 && t.iif == 1 && t.mem == s.mem && t.halted
  {
  }
}
