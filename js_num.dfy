/**
 * JavaScript number semantics that the emulator relies on.
 *
 * Every JavaScript operator `& | ^ ~ << >>` first converts its operands with
 * ToInt32 (the shift count with ToUint32, of which it keeps the low five
 * bits) and yields a signed 32-bit result.  The operators are defined here on
 * unbounded integers so that the rest of the model can use them exactly as the
 * source writes them.  Shifting is repeated halving (`Half`) or doubling
 * (`Twice`), and the bits of a number are read off by halving, so that every
 * proof step below is linear arithmetic.  Values beyond 2^53, where a
 * JavaScript number stops being an exact integer, are not modelled.
 */
module JsNum {

  const TWO31: int := 0x8000_0000
  const TWO32: int := 0x1_0000_0000

  /** 2^i, the exact value of `Math.pow(2, i)`. */
  function Pow2(i: nat): (r: nat)
    ensures r >= 1
  {
    if i == 0 then 1 else 2 * Pow2(i - 1)
  }

  predicate IsInt32(x: int) {
    -TWO31 <= x < TWO31
  }

  /**
   * ECMAScript ToUint32 on an integer: the residue modulo 2^32 (see
   * `Uint32IsMod`), reached by adding or subtracting 2^32.
   */
  function ToUint32(x: int): (r: nat)
    ensures r < TWO32
    decreases if x < 0 then TWO32 - x else x
  {
    if x < 0 then ToUint32(x + TWO32)
    else if x < TWO32 then x
    else ToUint32(x - TWO32)
  }

  /** How many times 2^32 is taken away from x by ToUint32. */
  ghost function Wraps(x: int): int
    decreases if x < 0 then TWO32 - x else x
  {
    if x < 0 then Wraps(x + TWO32) - 1
    else if x < TWO32 then 0
    else Wraps(x - TWO32) + 1
  }

  /** ECMAScript ToInt32 on an integer: the residue modulo 2^32 read as two's complement. */
  function ToInt32(x: int): (r: int)
    ensures IsInt32(r)
  {
    var u := ToUint32(x);
    if u < TWO31 then u else u - TWO32
  }

  /** x divided by 2^n, rounding towards minus infinity. */
  function Half(x: int, n: nat): int
    decreases n
  {
    if n == 0 then x else Half(x / 2, n - 1)
  }

  /** x multiplied by 2^n. */
  function Twice(x: int, n: nat): int
    decreases n
  {
    if n == 0 then x else 2 * Twice(x, n - 1)
  }

  /** The n low bits of x as an unsigned number. */
  function Low(x: int, n: nat): nat
    decreases n
  {
    if n == 0 then 0 else 2 * Low(x / 2, n - 1) + x % 2
  }

  /** The n low bits of x make a number below 2^n. */
  lemma {:induction false} LowBound(x: int, n: nat)
    ensures Low(x, n) < Pow2(n)
    decreases n
  {
    if n > 0 {
      LowBound(x / 2, n - 1);
    }
  }

  /** Bit i (counted from the least significant bit) of the 32-bit pattern of x. */
  predicate Bit(x: int, i: nat) {
    i < 32 && Half(ToUint32(x), i) % 2 == 1
  }

  /** The unsigned value of bits start .. start+width-1 of the 32-bit pattern of x. */
  function Field(x: int, start: nat, width: nat): nat {
    Low(Half(ToUint32(x), start), width)
  }

  datatype BitOp = AndOp | OrOp | XorOp

  function BitOf(op: BitOp, a: bool, b: bool): bool {
    match op
    case AndOp => a && b
    case OrOp => a || b
    case XorOp => a != b
  }

  /** Applies `op` to the n low bits of a and b, bit by bit. */
  function Combine(op: BitOp, a: nat, b: nat, n: nat): nat {
    if n == 0 then 0
    else 2 * Combine(op, a / 2, b / 2, n - 1) + (if BitOf(op, a % 2 == 1, b % 2 == 1) then 1 else 0)
  }

  /** JavaScript `a & b`. */
  function And(a: int, b: int): (r: int)
    ensures IsInt32(r)
  {
    ToInt32(Combine(AndOp, ToUint32(a), ToUint32(b), 32))
  }

  /** JavaScript `a | b`. */
  function Or(a: int, b: int): (r: int)
    ensures IsInt32(r)
  {
    ToInt32(Combine(OrOp, ToUint32(a), ToUint32(b), 32))
  }

  /** JavaScript `a ^ b`. */
  function Xor(a: int, b: int): (r: int)
    ensures IsInt32(r)
  {
    ToInt32(Combine(XorOp, ToUint32(a), ToUint32(b), 32))
  }

  /** JavaScript `~a`. */
  function Not(a: int): (r: int)
    ensures IsInt32(r)
  {
    -ToInt32(a) - 1
  }

  /** The 32-bit pattern of `~a` is the complement of that of a. */
  lemma NotPattern(a: int)
    ensures ToUint32(Not(a)) == TWO32 - 1 - ToUint32(a)
  {
    var v := ToInt32(a);
    if v >= 0 {
      Int32Id(v);
      Uint32Step(-v - 1);
    } else {
      Uint32Step(v);
      Uint32Step(-v - 1);
    }
  }

  /** JavaScript `a << n`. */
  function Shl(a: int, n: int): (r: int)
    ensures IsInt32(r)
  {
    ToInt32(Twice(ToUint32(a), ToUint32(n) % 32))
  }

  /** JavaScript `a >> n`, the arithmetic (sign-propagating) shift. */
  function Sar(a: int, n: int): (r: int)
    ensures IsInt32(r)
    ensures r < 0 <==> ToInt32(a) < 0
  {
    HalfInt32(ToInt32(a), ToUint32(n) % 32);
    Half(ToInt32(a), ToUint32(n) % 32)
  }

  // ---------------------------------------------------------------------
  // Conversions, powers of two, halving and doubling
  // ---------------------------------------------------------------------

  lemma Int32Id(x: int)
    requires IsInt32(x)
    ensures ToInt32(x) == x
  {
    if x < 0 {
      assert ToUint32(x) == ToUint32(x + TWO32) == x + TWO32;
    }
  }

  lemma Int32High(x: int)
    requires TWO31 <= x < TWO32
    ensures ToInt32(x) == x - TWO32
  {
  }

  lemma Int32OfUint32(x: int)
    ensures ToInt32(ToUint32(x)) == ToInt32(x)
  {
    Uint32Id(ToUint32(x));
  }

  lemma Uint32Id(x: int)
    requires 0 <= x < TWO32
    ensures ToUint32(x) == x
  {
  }

  /** x is ToUint32(x) plus a multiple of 2^32. */
  lemma Uint32Decompose(x: int)
    ensures x == TWO32 * Wraps(x) + ToUint32(x)
    decreases if x < 0 then TWO32 - x else x
  {
    if x < 0 {
      Uint32Decompose(x + TWO32);
    } else if x >= TWO32 {
      Uint32Decompose(x - TWO32);
    }
  }

  /** Adding a multiple of 2^32 does not change ToUint32. */
  lemma {:induction false} Uint32Shift(x: int, k: int)
    ensures ToUint32(x + TWO32 * k) == ToUint32(x)
    decreases if k < 0 then -k else k
  {
    if k > 0 {
      Uint32Shift(x, k - 1);
      Uint32Step(x + TWO32 * (k - 1));
    } else if k < 0 {
      Uint32Shift(x, k + 1);
      Uint32Step(x + TWO32 * k);
    }
  }

  lemma Uint32Step(x: int)
    ensures ToUint32(x + TWO32) == ToUint32(x)
  {
  }

  /** ToUint32 is the residue modulo 2^32. */
  lemma Uint32IsMod(x: int)
    ensures ToUint32(x) == x % TWO32
  {
    Uint32Decompose(x);
    var q, r := Wraps(x), ToUint32(x);
    assert x == TWO32 * q + r && 0 <= r < TWO32;
  }

  // ---------------------------------------------------------------------
  // Powers of two, halving and doubling
  // ---------------------------------------------------------------------

  lemma Pow2Of31()
    ensures Pow2(31) == TWO31
  {
    assert Pow2(8) == 0x100;
    assert Pow2(16) == 0x1_0000;
    assert Pow2(24) == 0x100_0000;
  }

  lemma Pow2Of20()
    ensures Pow2(20) == 0x10_0000
  {
    assert Pow2(8) == 0x100;
    assert Pow2(16) == 0x1_0000;
  }

  lemma Pow2Of32()
    ensures Pow2(32) == TWO32
  {
    Pow2Of31();
  }

  lemma Pow2Mono(i: nat, j: nat)
    requires i <= j
    ensures Pow2(i) <= Pow2(j)
  {
    if i < j {
      Pow2Mono(i, j - 1);
    }
  }


  lemma {:induction false} HalfZero(n: nat)
    ensures Half(0, n) == 0
  {
    if n > 0 {
      HalfZero(n - 1);
    }
  }

  /** One more halving. */
  lemma {:induction false} HalfSucc(x: int, n: nat)
    ensures Half(x, n + 1) == Half(x, n) / 2
    decreases n
  {
    if n > 0 {
      HalfSucc(x / 2, n - 1);
    }
  }

  /** Halving a times and then b times is halving a + b times. */
  lemma {:induction false} HalfAdd(x: int, a: nat, b: nat)
    ensures Half(Half(x, a), b) == Half(x, a + b)
    decreases a
  {
    if a > 0 {
      HalfAdd(x / 2, a - 1, b);
    }
  }

  /** A shifted 32-bit value stays a 32-bit value of the same sign. */
  lemma {:induction false} HalfInt32(v: int, n: nat)
    requires IsInt32(v)
    ensures IsInt32(Half(v, n))
    ensures Half(v, n) < 0 <==> v < 0
    decreases n
  {
    if n > 0 {
      HalfInt32(v / 2, n - 1);
    }
  }

  /** Below 2 * 2^n, halving n times leaves the single top bit. */
  lemma {:induction false} HalfThreshold(u: int, n: nat)
    requires 0 <= u < 2 * Pow2(n)
    ensures Half(u, n) == if u >= Pow2(n) then 1 else 0
    decreases n
  {
    if n > 0 {
      HalfThreshold(u / 2, n - 1);
    }
  }

  /** Within -2^n .. 2^n, halving n times leaves only the sign. */
  lemma {:induction false} HalfSign(v: int, n: nat)
    requires 0 <= v + Pow2(n) && v < Pow2(n)
    ensures Half(v, n) == if v < 0 then -1 else 0
    decreases n
  {
    if n > 0 {
      HalfSign(v / 2, n - 1);
    }
  }

  /** Halving a power of two. */
  lemma {:induction false} HalfPow2(i: nat, j: nat)
    ensures Half(Pow2(i), j) == if j <= i then Pow2(i - j) else 0
  {
    if j > 0 {
      if i == 0 {
        HalfZero(j - 1);
      } else {
        HalfPow2(i - 1, j - 1);
      }
    }
  }




  /** Doubling a times and then b times is doubling a + b times. */
  lemma {:induction false} TwiceAdd(x: int, a: nat, b: nat)
    ensures Twice(Twice(x, a), b) == Twice(x, a + b)
    decreases b
  {
    if b > 0 {
      TwiceAdd(x, a, b - 1);
    }
  }

  lemma {:induction false} TwiceOne(n: nat)
    ensures Twice(1, n) == Pow2(n)
  {
    if n > 0 {
      TwiceOne(n - 1);
    }
  }

  lemma Twice8(x: int)
    ensures Twice(x, 8) == 0x100 * x
  {
    assert Twice(x, 1) == 2 * x;
    assert Twice(x, 2) == 4 * x;
    assert Twice(x, 3) == 8 * x;
    assert Twice(x, 4) == 16 * x;
    assert Twice(x, 5) == 32 * x;
    assert Twice(x, 6) == 64 * x;
    assert Twice(x, 7) == 128 * x;
  }

  lemma Twice16(x: int)
    ensures Twice(x, 16) == 0x1_0000 * x
  {
    Twice8(x);
    Twice8(0x100 * x);
    TwiceAdd(x, 8, 8);
  }

  lemma Twice32(x: int)
    ensures Twice(x, 32) == TWO32 * x
  {
    Twice16(x);
    Twice16(0x1_0000 * x);
    TwiceAdd(x, 16, 16);
  }

  /** x is 2^n times its high part plus its n low bits. */
  lemma {:induction false} Decompose(x: int, n: nat)
    ensures x == Twice(Half(x, n), n) + Low(x, n)
    decreases n
  {
    if n > 0 {
      Decompose(x / 2, n - 1);
    }
  }

  /** Adding a multiple of 2^n leaves the n low bits unchanged. */
  lemma {:induction false} LowShift(x: int, n: nat, k: int)
    ensures Low(x + Twice(k, n), n) == Low(x, n)
    decreases n
  {
    if n > 0 {
      var y := x + Twice(k, n);
      assert y == x + 2 * Twice(k, n - 1);
      assert y / 2 == x / 2 + Twice(k, n - 1);
      assert y % 2 == x % 2;
      LowShift(x / 2, n - 1, k);
    }
  }

  /** Low bits split at k: the k low bits, then the next n bits above them. */
  lemma {:induction false} LowSplit(x: int, k: nat, n: nat)
    ensures Low(x, k + n) == Low(x, k) + Twice(Low(Half(x, k), n), k)
    decreases k
  {
    if k > 0 {
      LowSplit(x / 2, k - 1, n);
      var h := Half(x, k);
      assert h == Half(x / 2, k - 1);
      var l := Low(h, n);
      assert Twice(l, k) == 2 * Twice(l, k - 1);
      assert Low(x, k) == 2 * Low(x / 2, k - 1) + x % 2;
      assert Low(x, k + n) == 2 * Low(x / 2, k - 1 + n) + x % 2;
    }
  }

  /** The n low bits, n <= 32, see only the 32-bit pattern. */
  lemma LowUint(x: int, n: nat)
    requires n <= 32
    ensures Low(ToUint32(x), n) == Low(x, n)
  {
    var q := Wraps(x);
    Uint32Decompose(x);
    Twice32(-q);
    TwiceAdd(-q, 32 - n, n);
    assert ToUint32(x) == x + Twice(Twice(-q, 32 - n), n);
    LowShift(x, n, Twice(-q, 32 - n));
  }

  /** A number below 2^n is its own n low bits. */
  lemma {:induction false} LowSelf(u: int, n: nat)
    requires 0 <= u < Pow2(n)
    ensures Low(u, n) == u
    decreases n
  {
    if n > 0 {
      LowSelf(u / 2, n - 1);
    }
  }

  /** The low bits of a non-negative number do not exceed it. */
  lemma {:induction false} LowAtMost(u: int, n: nat)
    requires 0 <= u
    ensures Low(u, n) <= u
    decreases n
  {
    if n > 0 {
      LowAtMost(u / 2, n - 1);
    }
  }






  // ---------------------------------------------------------------------
  // Bit by bit
  // ---------------------------------------------------------------------

  lemma {:induction false} CombineComm(op: BitOp, a: nat, b: nat, n: nat)
    ensures Combine(op, a, b, n) == Combine(op, b, a, n)
  {
    if n > 0 {
      CombineComm(op, a / 2, b / 2, n - 1);
    }
  }

  lemma {:induction false} CombineBound(op: BitOp, a: nat, b: nat, n: nat)
    ensures Combine(op, a, b, n) < Pow2(n)
  {
    if n > 0 {
      CombineBound(op, a / 2, b / 2, n - 1);
    }
  }

  /** Bit i of a combination is the combination of the bits i. */
  lemma {:induction false} CombineBit(op: BitOp, a: nat, b: nat, n: nat, i: nat)
    requires i < n
    ensures Half(Combine(op, a, b, n), i) % 2
         == if BitOf(op, Half(a, i) % 2 == 1, Half(b, i) % 2 == 1) then 1 else 0
  {
    if i > 0 {
      CombineBit(op, a / 2, b / 2, n - 1, i - 1);
    }
  }

  /** Two numbers below 2^n with the same n low bits are equal. */
  lemma {:induction false} BitsDetermine(u: int, w: int, n: nat)
    requires 0 <= u < Pow2(n) && 0 <= w < Pow2(n)
    requires forall i :: 0 <= i < n ==> Half(u, i) % 2 == Half(w, i) % 2
    ensures u == w
  {
    if n > 0 {
      assert Half(u, 0) % 2 == Half(w, 0) % 2;
      forall i | 0 <= i < n - 1
        ensures Half(u / 2, i) % 2 == Half(w / 2, i) % 2
      {
        assert Half(u, i + 1) % 2 == Half(w, i + 1) % 2;
      }
      BitsDetermine(u / 2, w / 2, n - 1);
    }
  }

  /** Masking with 2^k - 1 keeps the k low bits. */
  lemma {:induction false} CombineAndLow(a: nat, k: nat, n: nat, mask: nat)
    requires k <= n && mask == Pow2(k) - 1
    ensures Combine(AndOp, a, mask, n) == Low(a, k)
  {
    if n > 0 {
      if k == 0 {
        assert mask / 2 == 0 && mask % 2 == 0;
        CombineAndLow(a / 2, 0, n - 1, mask / 2);
      } else {
        assert mask / 2 == Pow2(k - 1) - 1 && mask % 2 == 1;
        CombineAndLow(a / 2, k - 1, n - 1, mask / 2);
      }
      assert Combine(AndOp, a, mask, n)
          == 2 * Combine(AndOp, a / 2, mask / 2, n - 1) + (if a % 2 == 1 && mask % 2 == 1 then 1 else 0);
    }
  }

  /** Masking with 2^n - 2^k clears the k low bits. */
  lemma {:induction false} CombineAndHigh(a: nat, k: nat, n: nat, mask: nat)
    requires k <= n && a < Pow2(n) && mask == Pow2(n) - Pow2(k)
    ensures Combine(AndOp, a, mask, n) == a - Low(a, k)
  {
    if n > 0 {
      if k == 0 {
        assert mask / 2 == Pow2(n - 1) - Pow2(0) && mask % 2 == 1;
        CombineAndHigh(a / 2, 0, n - 1, mask / 2);
      } else {
        assert mask / 2 == Pow2(n - 1) - Pow2(k - 1) && mask % 2 == 0;
        CombineAndHigh(a / 2, k - 1, n - 1, mask / 2);
      }
      assert Combine(AndOp, a, mask, n)
          == 2 * Combine(AndOp, a / 2, mask / 2, n - 1) + (if a % 2 == 1 && mask % 2 == 1 then 1 else 0);
    }
  }

  lemma {:induction false} CombineZeros(op: BitOp, n: nat)
    ensures Combine(op, 0, 0, n) == 0
  {
    if n > 0 {
      CombineZeros(op, n - 1);
    }
  }

  lemma {:induction false} CombineOrZero(a: nat, n: nat)
    requires a < Pow2(n)
    ensures Combine(OrOp, a, 0, n) == a
  {
    if n > 0 {
      CombineOrZero(a / 2, n - 1);
    }
  }

  /** Bits of 2^n - 1 - u are the complements of the bits of u. */
  lemma {:induction false} ComplementBit(u: nat, n: nat, j: nat)
    requires u < Pow2(n) && j < n
    ensures Half(Pow2(n) - 1 - u, j) % 2 == 1 - Half(u, j) % 2
  {
    if j > 0 {
      ComplementBit(u / 2, n - 1, j - 1);
      assert (Pow2(n) - 1 - u) / 2 == Pow2(n - 1) - 1 - u / 2;
    }
  }

  // ---------------------------------------------------------------------
  // The JavaScript operators, bit by bit
  // ---------------------------------------------------------------------

  lemma ToUint32OfCombine(op: BitOp, a: nat, b: nat)
    ensures ToUint32(ToInt32(Combine(op, a, b, 32))) == Combine(op, a, b, 32)
  {
    CombineBound(op, a, b, 32);
    Pow2Of32();
  }

  lemma BitOfCombined(op: BitOp, a: int, b: int, j: nat)
    ensures Bit(ToInt32(Combine(op, ToUint32(a), ToUint32(b), 32)), j) == BitOf(op, Bit(a, j), Bit(b, j))
  {
    ToUint32OfCombine(op, ToUint32(a), ToUint32(b));
    if j < 32 {
      CombineBit(op, ToUint32(a), ToUint32(b), 32, j);
    }
  }

  lemma BitAnd(a: int, b: int, j: nat)
    ensures Bit(And(a, b), j) == (Bit(a, j) && Bit(b, j))
  {
    BitOfCombined(AndOp, a, b, j);
  }

  lemma BitOr(a: int, b: int, j: nat)
    ensures Bit(Or(a, b), j) == (Bit(a, j) || Bit(b, j))
  {
    BitOfCombined(OrOp, a, b, j);
  }

  lemma BitXor(a: int, b: int, j: nat)
    ensures Bit(Xor(a, b), j) == (Bit(a, j) != Bit(b, j))
  {
    BitOfCombined(XorOp, a, b, j);
  }

  lemma BitNot(a: int, j: nat)
    requires j < 32
    ensures Bit(Not(a), j) == !Bit(a, j)
  {
    Pow2Of32();
    NotPattern(a);
    ComplementBit(ToUint32(a), 32, j);
  }

  /** The bits of a power of two below 2^32. */
  lemma BitOfPow2(i: nat, j: nat)
    requires i < 32
    ensures Bit(Pow2(i), j) == (i == j)
  {
    Pow2Mono(i, 31);
    Pow2Of31();
    var p := Pow2(i);
    assert ToUint32(p) == p;
    HalfPow2(i, j);
    if j < 32 {
      if j < i {
        assert Half(p, j) == Pow2(i - j) == 2 * Pow2(i - j - 1);
      } else if j == i {
        assert Half(p, j) == 1;
      } else {
        assert Half(p, j) == 0;
      }
    }
  }

  lemma BitOfZero(j: nat)
    ensures !Bit(0, j)
  {
    HalfZero(j);
  }

  /** A 32-bit pattern is determined by its bits. */
  lemma SameBits(x: int, y: int)
    requires forall j :: 0 <= j < 32 ==> Bit(x, j) == Bit(y, j)
    ensures ToUint32(x) == ToUint32(y)
    ensures ToInt32(x) == ToInt32(y)
  {
    Pow2Of32();
    forall i | 0 <= i < 32
      ensures Half(ToUint32(x), i) % 2 == Half(ToUint32(y), i) % 2
    {
      assert Bit(x, i) == Bit(y, i);
    }
    BitsDetermine(ToUint32(x), ToUint32(y), 32);
  }

  /** `x & (2^k - 1)` (either operand order) is the k low bits of x, for k <= 31. */
  lemma AndLowMask(x: int, k: nat, m: int)
    requires k <= 31 && m == Pow2(k) - 1
    ensures And(x, m) == Low(x, k)
    ensures And(m, x) == Low(x, k)
  {
    Pow2Mono(k, 31);
    Pow2Of31();
    var u := ToUint32(x);
    Uint32Id(m);
    CombineAndLow(u, k, 32, m);
    CombineComm(AndOp, u, m, 32);
    LowUint(x, k);
    var c := Combine(AndOp, u, m, 32);
    assert c == Low(x, k);
    LowBound(x, k);
    Int32Id(c);
  }

  /** Clearing the k low bits of a pattern at or above 2^31 keeps it there. */
  lemma ClearLowKeepsTop(u: int, k: nat)
    requires TWO31 <= u && k <= 31
    ensures u - Low(u, k) >= TWO31
  {
    Pow2Of31();
    TwiceOne(31);
    TwiceAdd(1, 31 - k, k);
    var m := Twice(1, 31 - k);
    assert u == (u - TWO31) + Twice(m, k);
    LowShift(u - TWO31, k, m);
    LowAtMost(u - TWO31, k);
  }

  /** `x & 0xFFFFFFFF` is ToInt32(x). */
  lemma AndAllOnes(x: int)
    ensures And(x, 0xFFFF_FFFF) == ToInt32(x)
  {
    Pow2Of32();
    var u := ToUint32(x);
    Uint32Id(0xFFFF_FFFF);
    CombineAndLow(u, 32, 32, 0xFFFF_FFFF);
    LowSelf(u, 32);
    assert And(x, 0xFFFF_FFFF) == ToInt32(u);
  }

  /** Masking a 32-bit pattern with 2^32 - 2^k clears its k low bits. */
  lemma ClearLowPattern(u: nat, k: nat, mask: nat)
    requires u < TWO32 && k <= 31 && mask == TWO32 - Pow2(k)
    ensures Combine(AndOp, u, mask, 32) == u - Low(u, k)
  {
    Pow2Of32();
    CombineAndHigh(u, k, 32, mask);
  }

  /** `x & ~(2^k - 1)` clears the k low bits of ToInt32(x), for k <= 31. */
  lemma AndClearLow(x: int, k: nat, m: int)
    requires k <= 31 && m == Pow2(k) - 1
    ensures And(x, Not(m)) == ToInt32(x) - Low(x, k)
  {
    Pow2Mono(k, 31);
    Pow2Of31();
    var u := ToUint32(x);
    var p := Pow2(k);
    Uint32Id(m);
    NotPattern(m);
    var mm := ToUint32(Not(m));
    assert mm == TWO32 - p;
    ClearLowPattern(u, k, mm);
    var c := Combine(AndOp, u, mm, 32);
    assert c == u - Low(u, k);
    LowUint(x, k);
    var r := And(x, Not(m));
    assert r == ToInt32(c);
    var v := ToInt32(x);
    Int32OfUint32(x);
    var l := Low(x, k);
    if u >= TWO31 {
      ClearLowKeepsTop(u, k);
      Int32High(c);
      Int32High(u);
      assert r == c - TWO32 && v == u - TWO32;
    } else {
      LowAtMost(u, k);
      Int32Id(c);
      Int32Id(u);
      assert r == c && v == u;
    }
    assert r == v - l;
  }

  /** `x & 2^i` is nonzero exactly when bit i of x is set, i < 32. */
  lemma AndSingleBit(x: int, i: nat)
    requires i < 32
    ensures (And(x, Pow2(i)) != 0) == Bit(x, i)
    ensures And(Pow2(i), x) == And(x, Pow2(i))
  {
    CombineComm(AndOp, ToUint32(x), ToUint32(Pow2(i)), 32);
    var a := And(x, Pow2(i));
    BitAnd(x, Pow2(i), i);
    BitOfPow2(i, i);
    BitOfZero(i);
    if !Bit(x, i) {
      forall j | 0 <= j < 32
        ensures Bit(a, j) == Bit(0, j)
      {
        BitAnd(x, Pow2(i), j);
        BitOfPow2(i, j);
        BitOfZero(j);
      }
      SameBits(a, 0);
    }
  }

  lemma {:induction false} PowerWraps(i: nat)
    requires i >= 32
    ensures ToUint32(Pow2(i)) == 0
  {
    if i == 32 {
      Pow2Of32();
      Uint32Shift(0, 1);
    } else {
      var y := Pow2(i - 1);
      PowerWraps(i - 1);
      Uint32Decompose(y);
      assert Pow2(i) == 0 + TWO32 * (2 * Wraps(y));
      Uint32Shift(0, 2 * Wraps(y));
    }
  }

  lemma {:induction false} CombineZeroLeft(b: nat, n: nat)
    ensures Combine(AndOp, 0, b, n) == 0
  {
    if n > 0 {
      CombineZeroLeft(b / 2, n - 1);
    }
  }

  /** `2^i & x` for i >= 32: the power wraps to 0 and so does the result. */
  lemma AndWrappedPower(x: int, i: nat)
    requires i >= 32
    ensures And(Pow2(i), x) == 0
  {
    PowerWraps(i);
    CombineZeroLeft(ToUint32(x), 32);
  }

  /** The sign test `x & 0x80000000` reads bit 31, the sign of ToInt32(x). */
  lemma SignBit(x: int)
    ensures Bit(x, 31) == (ToInt32(x) < 0)
    ensures (And(x, 0x8000_0000) != 0) == (ToInt32(x) < 0)
  {
    Pow2Of31();
    HalfThreshold(ToUint32(x), 31);
    AndSingleBit(x, 31);
  }

  /** `(x >> 31) & 1` is 1 exactly for negative ToInt32(x). */
  lemma SignOfShift31(x: int)
    ensures And(Sar(x, 31), 1) == if ToInt32(x) < 0 then 1 else 0
  {
    Pow2Of31();
    var v := ToInt32(x);
    HalfSign(v, 31);
    assert Sar(x, 31) == Half(v, 31);
    AndLowMask(Sar(x, 31), 1, 1);
  }

  lemma OrZero(x: int)
    ensures Or(x, 0) == ToInt32(x)
  {
    Pow2Of32();
    CombineOrZero(ToUint32(x), 32);
  }

  /** `a ^ b` on single bits. */
  lemma XorOfBits(a: int, b: int)
    requires 0 <= a <= 1 && 0 <= b <= 1
    ensures Xor(a, b) == if a != b then 1 else 0
  {
    assert ToUint32(a) == a && ToUint32(b) == b;
    CombineZeros(XorOp, 31);
    assert a / 2 == 0 && b / 2 == 0;
    var c := Combine(XorOp, a, b, 32);
    assert c == 2 * Combine(XorOp, 0, 0, 31) + (if BitOf(XorOp, a % 2 == 1, b % 2 == 1) then 1 else 0);
    assert c == if a != b then 1 else 0;
  }

  /** `b << 8` for a byte b. */
  lemma ShlByte(b: int)
    requires 0 <= b < 0x100
    ensures Shl(b, 8) == 0x100 * b
  {
    Twice8(b);
  }

  /** `w << 16` for a 16-bit w. */
  lemma ShlHalf(w: int)
    requires 0 <= w < 0x1_0000
    ensures Shl(w, 16) == ToInt32(0x1_0000 * w)
  {
    Twice16(w);
  }

  /** `x >> 0` and `x << 0` (also `>> 32` and `<< 32`) give ToInt32(x). */
  lemma ShiftByZero(x: int, n: int)
    requires ToUint32(n) % 32 == 0
    ensures Sar(x, n) == ToInt32(x)
    ensures Shl(x, n) == ToInt32(x)
  {
  }

  /** `x >> n` for a count 0 <= n < 32 halves ToInt32(x) n times. */
  lemma SarSmall(x: int, n: int)
    requires 0 <= n < 32
    ensures Sar(x, n) == Half(ToInt32(x), n)
  {
    Uint32Id(n);
  }

  /** Taking a multiple of 2^(n+m) through n halvings leaves a multiple of 2^m. */
  lemma {:induction false} HalfOffset(y: int, c: int, n: nat, m: nat)
    decreases n
    ensures Half(y + Twice(c, n + m), n) == Half(y, n) + Twice(c, m)
  {
    if n > 0 {
      assert Twice(c, n + m) == 2 * Twice(c, n - 1 + m);
      assert (y + Twice(c, n + m)) / 2 == y / 2 + Twice(c, n - 1 + m);
      HalfOffset(y / 2, c, n - 1, m);
    }
  }

  /** Below bit 32, the bits of ToInt32(x) and of ToUint32(x) agree. */
  lemma SignedField(x: int, s: nat, w: nat)
    requires s + w <= 32
    ensures Low(Half(ToInt32(x), s), w) == Field(x, s, w)
  {
    var u := ToUint32(x);
    var y := ToInt32(x);
    if y != u {
      assert u == y + TWO32;
      Pow2Of32();
      TwiceOne(32);
      assert u == y + Twice(1, s + (32 - s));
      HalfOffset(y, 1, s, 32 - s);
      TwiceAdd(1, 32 - s - w, w);
      assert Twice(1, 32 - s) == Twice(Twice(1, 32 - s - w), w);
      LowShift(Half(y, s), w, Twice(1, 32 - s - w));
    }
  }

  /** `x & 0xFF` and `0xFF & x` keep the low byte. */
  lemma AndByte(x: int)
    ensures And(x, 0xFF) == Low(x, 8) && And(0xFF, x) == Low(x, 8)
    ensures 0 <= Low(x, 8) < 0x100
  {
    assert Pow2(8) == 0x100;
    AndLowMask(x, 8, 0xFF);
    LowBound(x, 8);
  }

  /** `x & 0xFFFF` keeps the low 16 bits. */
  lemma AndHalfword(x: int)
    ensures And(x, 0xFFFF) == Low(x, 16)
    ensures 0 <= Low(x, 16) < 0x1_0000
  {
    assert Pow2(8) == 0x100;
    assert Pow2(16) == 0x1_0000;
    AndLowMask(x, 16, 0xFFFF);
    LowBound(x, 16);
  }

  lemma Pow2Of27()
    ensures Pow2(27) == 0x800_0000
  {
    assert Pow2(8) == 0x100;
    assert Pow2(16) == 0x1_0000;
    assert Pow2(24) == 0x100_0000;
  }

  /** `x & 0x7FFFFFF` keeps the 27 low bits. */
  lemma AndLow27(x: int)
    ensures And(x, 0x7FF_FFFF) == Low(x, 27)
    ensures 0 <= Low(x, 27) < 0x800_0000
  {
    Pow2Of27();
    AndLowMask(x, 27, 0x7FF_FFFF);
    LowBound(x, 27);
  }

  /** `x >> 31` of a signed 32-bit x is its sign: -1 or 0. */
  lemma SarSign31(x: int)
    requires IsInt32(x)
    ensures Sar(x, 31) == if x < 0 then -1 else 0
  {
    Pow2Of31();
    SarSmall(x, 31);
    Int32Id(x);
    HalfSign(x, 31);
  }

  /** `x & 0x100000000`: the mask wraps to 0, and so does the result. */
  lemma AndTwo32(x: int)
    ensures And(x, TWO32) == 0
  {
    Uint32Shift(0, 1);
    CombineComm(AndOp, ToUint32(x), 0, 32);
    CombineZeroLeft(ToUint32(x), 32);
  }

  /** A mask whose 32-bit pattern is zero clears everything. */
  lemma AndWrappedMask(x: int, m: int)
    requires ToUint32(m) == 0
    ensures And(x, m) == 0
  {
    CombineComm(AndOp, ToUint32(x), 0, 32);
    CombineZeroLeft(ToUint32(x), 32);
  }

  /** Masking twice with the same mask is masking once. */
  lemma AndIdempotent(x: int, m: int)
    ensures And(And(x, m), m) == And(x, m)
  {
    var a := And(x, m);
    forall j | 0 <= j < 32
      ensures Bit(And(a, m), j) == Bit(a, j)
    {
      BitAnd(a, m, j);
      BitAnd(x, m, j);
    }
    SameBits(And(a, m), a);
    Int32Id(a);
    Int32Id(And(a, m));
  }
}
