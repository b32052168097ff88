/**
 * The status register `sr` of the FRISC CPU: the weights of its flags,
 * setting and reading one flag, and the fifteen branch conditions the
 * jump, call, return and halt instructions test.
 */
module Flags {
  import opened JsNum

  // The weights in `_f`.
  const INT2: int := 1024
  const INT1: int := 512
  const INT0: int := 256
  const GIE: int := 128
  const EINT2: int := 64
  const EINT1: int := 32
  const EINT0: int := 16
  const Z: int := 8
  const V: int := 4
  const C: int := 2
  const N: int := 1

  /** `_setFlag(flag, value)`: `sr | flag` for a truthy value, `sr & ~flag` otherwise. */
  function SetFlag(sr: int, flag: int, value: bool): int {
    if value then Or(sr, flag) else And(sr, Not(flag))
  }

  /** `_getFlag(flag)`: 1 when `sr & flag` is nonzero, else 0. */
  function GetFlag(sr: int, flag: int): int {
    if And(sr, flag) != 0 then 1 else 0
  }

  /** The values of `_conditionMap`; the comment after each gives the emulator's name for it. */
  datatype Cond =
    | Always  // ""
    | IfN     // "_N/M"
    | IfNN    // "_NN/P"
    | IfC     // "_C/ULT"
    | IfNC    // "_NC/UGE"
    | IfV     // "_V"
    | IfNV    // "_NV"
    | IfZ     // "_Z/EQ"
    | IfNZ    // "_NZ/NE"
    | IfULE   // "_ULE"
    | IfUGT   // "_UGT"
    | IfSLT   // "_SLT"
    | IfSLE   // "_SLE"
    | IfSGE   // "_SGE"
    | IfSGT   // "_SGT"

  /** `_testCond(cond)`, branch by branch; `_UGT` is written with `||`. */
  function TestCond(sr: int, cond: Cond): bool {
    var n, c, v, z := GetFlag(sr, N) != 0, GetFlag(sr, C) != 0, GetFlag(sr, V) != 0, GetFlag(sr, Z) != 0;
    match cond
    case Always => true
    case IfN => n
    case IfNN => !n
    case IfC => c
    case IfNC => !c
    case IfV => v
    case IfNV => !v
    case IfZ => z
    case IfNZ => !z
    case IfULE => c || z
    case IfUGT => !c || !z
    case IfSLT => n != v
    case IfSLE => (n != v) || z
    case IfSGE => n == v
    case IfSGT => (n == v) && !z
  }

  // ---------------------------------------------------------------------
  // What setting and reading a flag do to the bits of sr
  // ---------------------------------------------------------------------

  /** `_getFlag` of a single-bit flag reads that bit of sr. */
  lemma GetFlagBit(sr: int, flag: int, i: nat)
    requires i < 32 && flag == Pow2(i)
    ensures GetFlag(sr, flag) == if Bit(sr, i) then 1 else 0
  {
    AndSingleBit(sr, i);
  }

  /** `_setFlag` of a single-bit flag makes that bit the value and leaves every other bit of sr as it was. */
  lemma SetFlagBits(sr: int, flag: int, i: nat, value: bool, j: nat)
    requires i < 32 && flag == Pow2(i) && j < 32
    ensures Bit(SetFlag(sr, flag, value), j) == if j == i then value else Bit(sr, j)
  {
    BitOfPow2(i, j);
    if value {
      BitOr(sr, flag, j);
    } else {
      BitAnd(sr, Not(flag), j);
      BitNot(flag, j);
    }
  }

  /** After `_setFlag(flag, value)`, `_getFlag(flag)` is 1 for a truthy value and 0 otherwise. */
  lemma GetAfterSet(sr: int, flag: int, i: nat, value: bool)
    requires i < 32 && flag == Pow2(i)
    ensures GetFlag(SetFlag(sr, flag, value), flag) == if value then 1 else 0
  {
    SetFlagBits(sr, flag, i, value, i);
    GetFlagBit(SetFlag(sr, flag, value), flag, i);
  }

  /** Setting one flag does not change what `_getFlag` reads for another. */
  lemma GetAfterSetOther(sr: int, flag: int, i: nat, value: bool, other: int, k: nat)
    requires i < 32 && flag == Pow2(i) && k < 32 && other == Pow2(k) && k != i
    ensures GetFlag(SetFlag(sr, flag, value), other) == GetFlag(sr, other)
  {
    SetFlagBits(sr, flag, i, value, k);
    GetFlagBit(SetFlag(sr, flag, value), other, k);
    GetFlagBit(sr, other, k);
  }

  // ---------------------------------------------------------------------
  // The condition table in terms of the flag bits
  // ---------------------------------------------------------------------

  /** The four arithmetic flags are bits 0-3 of sr: N, C, V, Z in that order. */
  lemma FlagBits(sr: int)
    ensures (GetFlag(sr, N) != 0) == Bit(sr, 0)
    ensures (GetFlag(sr, C) != 0) == Bit(sr, 1)
    ensures (GetFlag(sr, V) != 0) == Bit(sr, 2)
    ensures (GetFlag(sr, Z) != 0) == Bit(sr, 3)
  {
    assert Pow2(1) == 2 && Pow2(2) == 4 && Pow2(3) == 8;
    GetFlagBit(sr, N, 0);
    GetFlagBit(sr, C, 1);
    GetFlagBit(sr, V, 2);
    GetFlagBit(sr, Z, 3);
  }

  /**
   * Every condition but one is the negation of its partner: N/NN, C/NC,
   * V/NV, Z/NZ, SLT/SGE and SLE/SGT.
   */
  lemma ComplementaryConditions(sr: int)
    ensures TestCond(sr, IfNN) == !TestCond(sr, IfN)
    ensures TestCond(sr, IfNC) == !TestCond(sr, IfC)
    ensures TestCond(sr, IfNV) == !TestCond(sr, IfV)
    ensures TestCond(sr, IfNZ) == !TestCond(sr, IfZ)
    ensures TestCond(sr, IfSGE) == !TestCond(sr, IfSLT)
    ensures TestCond(sr, IfSGT) == !TestCond(sr, IfSLE)
  {
  }

  /**
   * The exception is ULE/UGT: with `||` in `_UGT`, an sr with C set and Z
   * clear (sr = 2) satisfies both, while the flags table pairs them as
   * complements ("C=1 or Z=1" against "C=0 and Z=0").
   */
  lemma UleUgtOverlap()
    ensures TestCond(C, IfULE) && TestCond(C, IfUGT)
  {
    FlagBits(C);
    assert Bit(C, 1) && !Bit(C, 3) by {
      BitOfPow2(1, 1);
      BitOfPow2(1, 3);
    }
  }

  /** `_UGT` fails only when both C and Z are set. */
  lemma UgtAsWritten(sr: int)
    ensures TestCond(sr, IfUGT) == !(Bit(sr, 1) && Bit(sr, 3))
  {
    FlagBits(sr);
  }

  /** The signed conditions read N xor V: SLT holds exactly when bits 0 and 2 of sr differ. */
  lemma SignedConditions(sr: int)
    ensures TestCond(sr, IfSLT) == (Bit(sr, 0) != Bit(sr, 2))
    ensures TestCond(sr, IfSLE) == ((Bit(sr, 0) != Bit(sr, 2)) || Bit(sr, 3))
    ensures TestCond(sr, IfSGT) == ((Bit(sr, 0) == Bit(sr, 2)) && !Bit(sr, 3))
  {
    FlagBits(sr);
  }
}
