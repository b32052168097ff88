/**
 * The `CPU` object: the register object `_r` as fields updated in place,
 * the `_i` handlers, `performCycle` and `reset` as methods, and `MEM` as
 * the `Memory` object the CPU reads and writes.
 *
 * Every method follows the statements of its JavaScript counterpart that
 * affect the state, in their order, and is proved to leave the state the
 * pure function of `Handlers` describes; what those functions amount to is
 * proved in `Handlers` and `HandlerLaws`.  Two departures: ADD and ADC
 * share one body, `AddCarrying`, as they differ only in their carry-in; and
 * SUB leaves out the negated operand and carry, and the carries computed
 * from them, that `SUB` in friscjs.js computes but never uses.
 */
module Cpus {
  import opened JsNum
  import opened Flags
  import opened Mem
  import opened Decoder
  import opened Handlers

  class Cpu {
    /** r0 .. r7 of `_r`. */
    var r: Regs
    var pc: int
    var sr: int
    var iif: int
    /** Whether `stop()` has been called. */
    var halted: bool
    /** `MEM`. */
    const mem: Memory

    /** The state this CPU and its memory are in, as `Handlers` describes it. */
    ghost function Snapshot(): State
      reads this, mem
    {
      State(r, pc, sr, iif, mem.cells, halted)
    }

    /** `_r` starts with every register 0 and iif 1. */
    constructor (m: Memory)
      ensures mem == m
      ensures Snapshot() == State([0, 0, 0, 0, 0, 0, 0, 0], 0, 0, 1, m.cells, false)
    {
      r := [0, 0, 0, 0, 0, 0, 0, 0];
      pc, sr, iif := 0, 0, 1;
      halted := false;
      mem := m;
    }

    // -------------------------------------------------------------------
    // Flags and conditions
    // -------------------------------------------------------------------

    /** `_setFlag`. */
    method SetFlag(flag: int, value: bool)
      modifies this
      ensures sr == Flags.SetFlag(old(sr), flag, value)
      ensures r == old(r) && pc == old(pc) && iif == old(iif) && halted == old(halted)
    {
      sr := if value then Or(sr, flag) else And(sr, Not(flag));
    }

    /** `_getFlag`. */
    method GetFlag(flag: int) returns (v: int)
      ensures v == Flags.GetFlag(sr, flag)
      ensures v == 0 || v == 1
    {
      v := if And(sr, flag) != 0 then 1 else 0;
    }

    /** `_testCond`, one branch per condition string. */
    method TestCond(cond: Cond) returns (result: bool)
      ensures result == Flags.TestCond(sr, cond)
    {
      var n := GetFlag(N);
      var c := GetFlag(C);
      var v := GetFlag(V);
      var z := GetFlag(Z);
      if cond == Always {
        result := true;
      } else if cond == IfN {
        result := n != 0;
      } else if cond == IfNN {
        result := n == 0;
      } else if cond == IfC {
        result := c != 0;
      } else if cond == IfNC {
        result := c == 0;
      } else if cond == IfV {
        result := v != 0;
      } else if cond == IfNV {
        result := v == 0;
      } else if cond == IfZ {
        result := z != 0;
      } else if cond == IfNZ {
        result := z == 0;
      } else if cond == IfULE {
        result := c != 0 || z != 0;
      } else if cond == IfUGT {
        result := c == 0 || z == 0;
      } else if cond == IfSLT {
        result := (n != 0) != (v != 0);
      } else if cond == IfSLE {
        result := ((n != 0) != (v != 0)) || z != 0;
      } else if cond == IfSGE {
        result := (n != 0) == (v != 0);
      } else {
        result := ((n != 0) == (v != 0)) && z == 0;
      }
    }

    /** The four `_setFlag` calls that end the arithmetic handlers: C, V, N, Z. */
    method SetResultFlags(carry: bool, overflow: bool, res: int)
      modifies this
      ensures sr == ArithFlags(old(sr), carry, overflow, res)
      ensures r == old(r) && pc == old(pc) && iif == old(iif) && halted == old(halted)
    {
      SetFlag(C, carry);
      SetFlag(V, overflow);
      SetFlag(N, And(res, 0x8000_0000) != 0);
      SetFlag(Z, And(res, 0xFFFF_FFFF) == 0);
    }

    /** `typeof x === 'number' ? x : this._r[x]`. */
    method Value(o: Operand) returns (v: int)
      ensures v == ValueOf(Snapshot(), o)
    {
      v := if o.Number? then o.n else r[o.r];
    }

    /** `stop()`: the timer and the `onStop` hook are not modelled. */
    method Stop()
      modifies this
      ensures halted
      ensures r == old(r) && pc == old(pc) && sr == old(sr) && iif == old(iif)
    {
      halted := true;
    }

    // -------------------------------------------------------------------
    // Arithmetic and logic
    // -------------------------------------------------------------------

    /** The body ADD and ADC share once the carry-in is known. */
    method AddCarrying(src1: Reg, src2: Operand, dest: Reg, carry: int)
      modifies this
      ensures Snapshot() == AddWithCarry(old(Snapshot()), src1, src2, dest, carry)
    {
      AddWithCarryFields(Snapshot(), src1, src2, dest, carry);
      var a := r[src1];
      var b := Value(src2);
      var res := a + b + carry;
      var cv := CarryOut(a, b, carry);
      SetResultFlags(cv.0, cv.1, res);
      r := r[dest := And(res, 0xFFFF_FFFF)];
    }

    method HandleAdd(src1: Reg, src2: Operand, dest: Reg)
      modifies this
      ensures Snapshot() == ExecAdd(old(Snapshot()), src1, src2, dest)
    {
      var carry := 0;
      AddCarrying(src1, src2, dest, carry);
    }

    method HandleAdc(src1: Reg, src2: Operand, dest: Reg)
      modifies this
      ensures Snapshot() == ExecAdc(old(Snapshot()), src1, src2, dest)
    {
      var carry := GetFlag(C);
      AddCarrying(src1, src2, dest, carry);
    }

    method HandleSub(src1: Reg, src2: Operand, dest: Reg)
      modifies this
      ensures Snapshot() == ExecSub(old(Snapshot()), src1, src2, dest)
    {
      var a := r[src1];
      var b := Value(src2);
      var carry := 0;
      var res := a - b - carry;
      SetResultFlags(res > 0xFFFF_FFFF, res > 0xFFFF_FFFF, res);
      r := r[dest := And(res, 0xFFFF_FFFF)];
    }

    method HandleSbc(src1: Reg, src2: Operand, dest: Reg)
      modifies this
      ensures Snapshot() == ExecSbc(old(Snapshot()), src1, src2, dest)
    {
      SbcFields(Snapshot(), src1, src2, dest);
      var a := r[src1];
      var b := Value(src2);
      var carry := GetFlag(C);
      var res := a - b - carry;
      b := Negate(b);
      carry := Negate(carry);
      var cv := CarryOut(a, b, carry);
      SetResultFlags(cv.0, cv.1, res);
      r := r[dest := And(res, 0xFFFF_FFFF)];
    }

    /** `(~x + 1) & 0xFFFFFFFF`, as SBC negates its second operand and its carry. */
    static method Negate(x: int) returns (y: int)
      ensures y == ToInt32(-ToInt32(x))
    {
      y := And(Not(x) + 1, 0xFFFF_FFFF);
      Negation(x);
    }

    method HandleCmp(src1: Reg, src2: Operand)
      modifies this
      ensures Snapshot() == ExecCmp(old(Snapshot()), src1, src2)
    {
      var b := Value(src2);
      var res := r[src1] - b;
      SetResultFlags(res > 0xFFFF_FFFF, res > 0xFFFF_FFFF, res);
    }

    method HandleAnd(src1: Reg, src2: Operand, dest: Reg)
      modifies this
      ensures Snapshot() == ExecAnd(old(Snapshot()), src1, src2, dest)
    {
      var b := Value(src2);
      var res := And(r[src1], b);
      SetResultFlags(false, false, res);
      r := r[dest := And(res, 0xFFFF_FFFF)];
    }

    method HandleOr(src1: Reg, src2: Operand, dest: Reg)
      modifies this
      ensures Snapshot() == ExecOr(old(Snapshot()), src1, src2, dest)
    {
      var b := Value(src2);
      var res := Or(r[src1], b);
      SetResultFlags(false, false, res);
      r := r[dest := And(res, 0xFFFF_FFFF)];
    }

    method HandleXor(src1: Reg, src2: Operand, dest: Reg)
      modifies this
      ensures Snapshot() == ExecXor(old(Snapshot()), src1, src2, dest)
    {
      var b := Value(src2);
      var res := Xor(r[src1], b);
      SetResultFlags(false, false, res);
      r := r[dest := And(res, 0xFFFF_FFFF)];
    }

    // -------------------------------------------------------------------
    // Shifts and rotations
    // -------------------------------------------------------------------

    method HandleShl(src1: Reg, src2: Operand, dest: Reg)
      modifies this
      ensures Snapshot() == ExecShl(old(Snapshot()), src1, src2, dest)
    {
      var b := Value(src2);
      var res := Shl(r[src1], b);
      SetResultFlags(And(res, TWO32) != 0, false, res);
      r := r[dest := And(res, 0xFFFF_FFFF)];
    }

    method HandleShr(src1: Reg, src2: Operand, dest: Reg)
      modifies this
      ensures Snapshot() == ExecShr(old(Snapshot()), src1, src2, dest)
    {
      var a := Shl(r[src1], 32);
      var b := Value(src2);
      var res := Sar(a, b);
      SetFlag(C, And(res, 0x8000_0000) != 0);
      res := Sar(res, 32);
      SetFlag(V, false);
      SetFlag(N, And(res, 0x8000_0000) != 0);
      SetFlag(C, And(res, 0xFFFF_FFFF) == 0);
      r := r[dest := And(res, 0xFFFF_FFFF)];
    }

    method HandleAshr(src1: Reg, src2: Operand, dest: Reg)
      modifies this
      ensures Snapshot() == ExecAshr(old(Snapshot()), src1, src2, dest)
    {
      var a := Shl(r[src1], 32);
      // `this._r[src1]` with src1 now a number is undefined.
      var sign := And(0, 0x8000_0000);
      var b := Value(src2);
      var res := Sar(a, b);
      SetFlag(C, And(res, 0x8000_0000) != 0);
      res := Sar(a, 32);
      res := Or(res, sign);
      SetFlag(V, false);
      SetFlag(N, And(res, 0x8000_0000) != 0);
      SetFlag(Z, And(res, 0xFFFF_FFFF) == 0);
      r := r[dest := And(res, 0xFFFF_FFFF)];
    }

    method HandleRotl(src1: Reg, src2: Operand, dest: Reg)
      modifies this
      ensures Snapshot() == ExecRotl(old(Snapshot()), src1, src2, dest)
    {
      var b := Value(src2);
      var res := Shl(r[src1], b);
      var carry := And(res, TWO32) != 0;
      res := Or(And(res, 0xFFFF_FFFF), Sar(And(res, HIGH_WORD_MASK), 32));
      SetResultFlags(carry, false, res);
      r := r[dest := And(res, 0xFFFF_FFFF)];
    }

    method HandleRotr(src1: Reg, src2: Operand, dest: Reg)
      modifies this
      ensures Snapshot() == ExecRotr(old(Snapshot()), src1, src2, dest)
    {
      var a := Shl(r[src1], 32);
      var b := Value(src2);
      var res := Sar(a, b);
      var carry := And(res, 0x8000_0000) != 0;
      res := Sar(Or(Shl(And(res, 0xFFFF_FFFF), 32), And(res, HIGH_WORD_MASK)), 32);
      SetResultFlags(carry, false, res);
      r := r[dest := And(res, 0xFFFF_FFFF)];
    }

    // -------------------------------------------------------------------
    // Moves, loads and stores
    // -------------------------------------------------------------------

    method HandleMove(from: MoveSource, to: MoveTarget)
      modifies this
      ensures Snapshot() == ExecMove(old(Snapshot()), from, to)
    {
      var v;
      if from.FromSr? {
        v := And(sr, 0xFF);
      } else if to.ToSr? {
        v := Value(from.o);
        v := And(v, 0xFF);
      } else {
        v := Value(from.o);
      }
      if to.ToSr? {
        sr := v;
      } else {
        r := r[to.r := v];
      }
    }

    /** `(typeof addr === 'string' ? this._r[addr] : 0) + offset`. */
    method Address(addr: Operand, offset: int) returns (a: int)
      ensures a == EffectiveAddress(Snapshot(), addr, offset)
    {
      a := (if addr.Register? then r[addr.r] else 0) + offset;
    }

    method HandleLoad(addr: Operand, offset: int, reg: Reg)
      modifies this
      ensures Snapshot() == ExecLoad(old(Snapshot()), addr, offset, reg)
    {
      var a := Address(addr, offset);
      a := And(a, Not(3));
      var w := mem.Read(a);
      r := r[reg := w];
    }

    method HandleLoadh(addr: Operand, offset: int, reg: Reg)
      modifies this
      ensures Snapshot() == ExecLoadh(old(Snapshot()), addr, offset, reg)
    {
      var a := Address(addr, offset);
      a := And(a, Not(1));
      var w := mem.Readw(a);
      r := r[reg := w];
    }

    method HandleLoadb(addr: Operand, offset: int, reg: Reg)
      modifies this
      ensures Snapshot() == ExecLoadb(old(Snapshot()), addr, offset, reg)
    {
      var a := Address(addr, offset);
      var b := mem.Readb(a);
      r := r[reg := b];
    }

    method HandleStore(addr: Operand, offset: int, reg: Reg)
      modifies mem
      ensures Snapshot() == ExecStore(old(Snapshot()), addr, offset, reg)
    {
      var a := Address(addr, offset);
      a := And(a, Not(3));
      mem.Write(a, r[reg]);
    }

    method HandleStoreh(addr: Operand, offset: int, reg: Reg)
      modifies mem
      ensures Snapshot() == ExecStoreh(old(Snapshot()), addr, offset, reg)
    {
      var a := Address(addr, offset);
      a := And(a, Not(1));
      mem.Write(a, r[reg]);
    }

    method HandleStoreb(addr: Operand, offset: int, reg: Reg)
      modifies mem
      ensures Snapshot() == ExecStoreb(old(Snapshot()), addr, offset, reg)
    {
      var a := Address(addr, offset);
      mem.Write(a, r[reg]);
    }

    method HandlePop(dest: Reg)
      modifies this
      ensures Snapshot() == ExecPop(old(Snapshot()), dest)
    {
      var w := mem.Read(And(r[7], 3));
      r := r[dest := w];
      r := r[7 := r[7] + 4];
    }

    method HandlePush(src: Reg)
      modifies this, mem
      ensures Snapshot() == ExecPush(old(Snapshot()), src)
    {
      ghost var s := Snapshot();
      ghost var s1 := s.(r := s.r[7 := s.r[7] - 4]);
      assert ExecPush(s, src) == s1.(mem := WriteWord(s.mem, s1.r[7], And(s1.r[src], 3)));
      r := r[7 := r[7] - 4];
      assert Snapshot() == s1;
      mem.Write(r[7], And(r[src], 3));
    }

    // -------------------------------------------------------------------
    // Control flow
    // -------------------------------------------------------------------

    method HandleJp(cond: Cond, target: Operand)
      modifies this
      ensures Snapshot() == ExecJp(old(Snapshot()), cond, target)
    {
      var taken := TestCond(cond);
      if taken {
        var to := Value(target);
        pc := And(to, Not(3));
      }
    }

    method HandleJr(cond: Cond, offset: int)
      modifies this
      ensures Snapshot() == ExecJr(old(Snapshot()), cond, offset)
    {
      var taken := TestCond(cond);
      if taken {
        pc := And(pc + offset, Not(3));
      }
    }

    method HandleCall(cond: Cond, target: Operand)
      modifies this, mem
      ensures Snapshot() == ExecCall(old(Snapshot()), cond, target)
    {
      var taken := TestCond(cond);
      if taken {
        CallFields(Snapshot(), cond, target);
        r := r[7 := r[7] - 4];
        mem.Write(r[7], And(pc, Not(3)));
        var to := Value(target);
        pc := And(to, Not(3));
      }
    }

    method HandleRet(cond: Cond, isReti: bool, isRetn: bool)
      modifies this
      ensures Snapshot() == ExecRet(old(Snapshot()), cond, isReti, isRetn)
    {
      var taken := TestCond(cond);
      if taken {
        Return(isReti, isRetn);
      }
    }

    /** The body of RET once its condition holds. */
    method Return(isReti: bool, isRetn: bool)
      modifies this
      ensures Snapshot() == Handlers.Return(old(Snapshot()), isReti, isRetn)
    {
      ReturnFields(Snapshot(), isReti, isRetn);
      var w := mem.Read(r[7]);
      pc, r := And(w, Not(3)), r[7 := r[7] + 4];
      SetReturnStatus(isReti, isRetn);
    }

    method SetReturnStatus(isReti: bool, isRetn: bool)
      modifies this
      ensures sr == ReturnStatus(old(sr), isReti, isRetn)
      ensures r == old(r) && pc == old(pc) && iif == old(iif) && halted == old(halted)
    {
      if isReti {
        SetFlag(GIE, true);
      } else if isRetn {
        // `_f.IIF` is undefined: `sr | undefined`.
        sr := Or(sr, 0);
      }
    }

    method HandleHalt(cond: Cond)
      modifies this
      ensures Snapshot() == ExecHalt(old(Snapshot()), cond)
    {
      var taken := TestCond(cond);
      if taken {
        Stop();
      }
    }

    // -------------------------------------------------------------------
    // Dispatch, the cycle and reset
    // -------------------------------------------------------------------

    /** `this._i[op].apply(this, args)`. */
    method Dispatch(op: Mnemonic, args: Args)
      requires Fits(op, args)
      modifies this, mem
      ensures Snapshot() == Execute(old(Snapshot()), op, args)
    {
      match op
      case MOVE => HandleMove(args.from, args.to);
      case OR => HandleOr(args.src1, args.src2, args.dest);
      case AND => HandleAnd(args.src1, args.src2, args.dest);
      case XOR => HandleXor(args.src1, args.src2, args.dest);
      case ADD => HandleAdd(args.src1, args.src2, args.dest);
      case ADC => HandleAdc(args.src1, args.src2, args.dest);
      case SUB => HandleSub(args.src1, args.src2, args.dest);
      case SBC => HandleSbc(args.src1, args.src2, args.dest);
      case ROTL => HandleRotl(args.src1, args.src2, args.dest);
      case ROTR => HandleRotr(args.src1, args.src2, args.dest);
      case SHL => HandleShl(args.src1, args.src2, args.dest);
      case SHR => HandleShr(args.src1, args.src2, args.dest);
      case ASHR => HandleAshr(args.src1, args.src2, args.dest);
      case CMP => HandleCmp(args.src1, args.src2);
      case JP => HandleJp(args.cond, args.target);
      case CALL => HandleCall(args.cond, args.target);
      case JR => HandleJr(args.cond, args.offset);
      case RET => HandleRet(args.cond, args.isReti, args.isRetn);
      case LOAD => HandleLoad(args.addr, args.offset, args.reg);
      case STORE => HandleStore(args.addr, args.offset, args.reg);
      case LOADB => HandleLoadb(args.addr, args.offset, args.reg);
      case STOREB => HandleStoreb(args.addr, args.offset, args.reg);
      case LOADH => HandleLoadh(args.addr, args.offset, args.reg);
      case STOREH => HandleStoreh(args.addr, args.offset, args.reg);
      case POP => HandlePop(args.reg);
      case PUSH => HandlePush(args.reg);
      case HALT => HandleHalt(args.cond);
    }

    /** The handler of a decoded instruction, then the step to the next word. */
    method StepDecoded(op: Mnemonic, args: Args)
      requires Fits(op, args)
      modifies this, mem
      ensures Snapshot() == Step(old(Snapshot()), op, args)
    {
      Dispatch(op, args);
      pc := pc + 4;
    }

    /**
     * `performCycle`: fetch, decode, execute and add 4 to pc; a word that
     * does not decode stops the CPU and throws, which `thrown` reports.
     */
    method PerformCycle() returns (thrown: bool)
      modifies this, mem
      ensures Cycle(old(Snapshot())) == if thrown then Thrown(Snapshot()) else Executed(Snapshot())
    {
      var instruction := mem.Read(pc);
      var decoded := Decode(instruction);
      if decoded.op.Some? && decoded.args.Some? {
        DecodeFits(instruction);
        StepDecoded(decoded.op.value, decoded.args.value);
        thrown := false;
      } else {
        Stop();
        thrown := true;
      }
    }

    /** `reset`: `stop()`, then a fresh `_r`. */
    method Reset()
      modifies this
      ensures Snapshot() == Handlers.Reset(old(Snapshot()))
    {
      Stop();
      r := [0, 0, 0, 0, 0, 0, 0, 0];
      pc, sr, iif := 0, 0, 1;
    }
  }
}
