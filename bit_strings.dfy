/**
 * The emulator's bit-string helpers: conversion between integers and
 * fixed-width strings of '0' and '1' (most significant character first),
 * slicing a bit range out of a 32-bit word, and the `extend` padding helper.
 *
 * Each helper is a loop in the emulator; here each loop is a method proved
 * against a specification function, and the decoder uses the functions.
 */
module BitStrings {
  import opened JsNum

  function Digit(b: bool): char {
    if b then '1' else '0'
  }

  /** The character `convertIntToBinary` emits for bit i: whether `2^i & value` is nonzero. */
  function BitChar(value: int, i: nat): char {
    if And(Pow2(i), value) != 0 then '1' else '0'
  }

  /** The string `convertIntToBinary(value, numberOfBits)` returns: character k shows bit numberOfBits-1-k. */
  function IntToBinary(value: int, numberOfBits: nat): (s: string)
    ensures |s| == numberOfBits
  {
    seq(numberOfBits, k requires 0 <= k < numberOfBits => BitChar(value, numberOfBits - 1 - k))
  }

  /** The unsigned value of a binary string, most significant character first; only '1' counts as one. */
  function UnsignedValue(s: string): (v: nat)
    ensures v < Pow2(|s|)
  {
    if |s| == 0 then 0
    else (if s[0] == '1' then Pow2(|s| - 1) else 0) + UnsignedValue(s[1..])
  }

  /**
   * The value `convertBinaryToInt(value, signed)` returns: the unsigned value
   * of the last |value| - signed characters, and for a signed string whose
   * first character is '1', that value less 2^(|value|-1).
   */
  function BinaryToInt(value: string, signed: bool): int {
    var count := |value| - (if signed then 1 else 0);
    var retVal := if count <= 0 then 0 else UnsignedValue(value[|value| - count..]);
    if signed && |value| > 0 && value[0] == '1' then (Pow2(|value| - 1) - retVal) * -1 else retVal
  }

  /** JavaScript `s.substring(a, b)`: both ends clamped to 0 .. |s|, swapped when out of order. */
  function Substring(s: string, a: int, b: int): (r: string)
    ensures |r| <= |s|
  {
    var from := if a < 0 then 0 else if a > |s| then |s| else a;
    var to := if b < 0 then 0 else if b > |s| then |s| else b;
    if from <= to then s[from..to] else s[to..from]
  }

  /** `getBitString` on a string: the characters for bits start .. end, counted from the right. */
  function StringBits(s: string, start: int, end: int): string {
    Substring(s, |s| - end - 1, |s| - start)
  }

  /** `getBitString` on a number: the same slice of its 32-character binary form. */
  function GetBitString(number: int, start: int, end: int): string {
    StringBits(IntToBinary(number, 32), start, end)
  }

  function Repeat(c: char, n: nat): (r: string)
    ensures |r| == n && forall k :: 0 <= k < n ==> r[k] == c
  {
    if n == 0 then [] else [c] + Repeat(c, n - 1)
  }

  /**
   * The string `extend(s, numberOfBits, signed)` returns: s with |s| - numberOfBits
   * copies of its padding character in front.  The loop bound runs the
   * wrong way, so a string shorter than numberOfBits comes back unchanged.
   */
  function Extended(s: string, numberOfBits: nat, signed: bool): string {
    var prefix := if signed && |s| > 0 then s[0] else '0';
    if |s| <= numberOfBits then s else Repeat(prefix, |s| - numberOfBits) + s
  }

  // ---------------------------------------------------------------------
  // The helpers as the emulator runs them
  // ---------------------------------------------------------------------

  method ConvertIntToBinary(value: int, numberOfBits: nat) returns (s: string)
    ensures s == IntToBinary(value, numberOfBits)
  {
    var retVal := new char[numberOfBits];
    for i := 0 to numberOfBits
      invariant forall k :: numberOfBits - i <= k < numberOfBits ==>
        retVal[k] == BitChar(value, numberOfBits - 1 - k)
    {
      retVal[numberOfBits - i - 1] := if And(Pow2(i), value) != 0 then '1' else '0';
    }
    s := retVal[..];
  }

  method ConvertBinaryToInt(value: string, signed: bool) returns (r: int)
    ensures r == BinaryToInt(value, signed)
  {
    var retVal := 0;
    var numberOfBits := |value|;
    var limit := numberOfBits - (if signed then 1 else 0);
    var i := 0;
    while i < limit
      invariant 0 <= i <= numberOfBits && (limit >= 0 ==> i <= limit)
      invariant retVal == UnsignedValue(value[numberOfBits - i..])
    {
      assert value[numberOfBits - i - 1..][1..] == value[numberOfBits - i..];
      retVal := retVal + (if value[numberOfBits - i - 1] == '1' then Pow2(i) else 0);
      i := i + 1;
    }
    r := if signed && |value| > 0 && value[0] == '1' then (Pow2(numberOfBits - 1) - retVal) * -1 else retVal;
  }

  method Extend(binaryString: string, numberOfBits: nat, signed: bool) returns (res: string)
    ensures res == Extended(binaryString, numberOfBits, signed)
  {
    res := binaryString;
    var prefix := if signed && |binaryString| > 0 then binaryString[0] else '0';
    var count := |binaryString| - numberOfBits;
    var i := 0;
    while i < count
      invariant count > 0 ==> 0 <= i <= count
      invariant count <= 0 ==> i == 0
      invariant res == Repeat(prefix, i) + binaryString
    {
      assert [prefix] + (Repeat(prefix, i) + binaryString) == Repeat(prefix, i + 1) + binaryString;
      res := [prefix] + res;
      i := i + 1;
    }
    assert count > 0 ==> res == Repeat(prefix, count) + binaryString;
  }

  // ---------------------------------------------------------------------
  // What the helpers compute
  // ---------------------------------------------------------------------

  /** t shows, most significant first, bits start .. start+width-1 of the 32-bit pattern of x. */
  predicate IsWindow(t: string, x: int, start: nat, width: nat) {
    |t| == width && forall k :: 0 <= k < width ==> t[k] == Digit(Bit(x, start + width - 1 - k))
  }

  lemma TwiceZero(n: nat)
    ensures Twice(0, n) == 0
  {
  }

  /** The top bit of an n-bit field is worth 2^(n-1). */
  lemma TopBit(h: int, n: nat)
    requires n >= 1
    ensures Low(h, n) == (if Half(h, n - 1) % 2 == 1 then Pow2(n - 1) else 0) + Low(h, n - 1)
  {
    var y := Half(h, n - 1);
    LowSplit(h, n - 1, 1);
    assert Low(y, 1) == y % 2;
    TwiceOne(n - 1);
    TwiceZero(n - 1);
  }

  /** Reading a window of bits as a binary string gives the numeric field. */
  lemma {:induction false} WindowValue(t: string, x: int, start: nat, width: nat)
    requires start + width <= 32 && IsWindow(t, x, start, width)
    ensures UnsignedValue(t) == Field(x, start, width)
  {
    if width > 0 {
      assert IsWindow(t[1..], x, start, width - 1);
      WindowValue(t[1..], x, start, width - 1);
      var u := ToUint32(x);
      TopBit(Half(u, start), width);
      HalfAdd(u, start, width - 1);
    }
  }

  /** Character i of `convertIntToBinary` is bit i of the 32-bit pattern (and '0' past bit 31). */
  lemma BitCharIsBit(value: int, i: nat)
    ensures BitChar(value, i) == Digit(Bit(value, i))
  {
    if i < 32 {
      AndSingleBit(value, i);
    } else {
      AndWrappedPower(value, i);
    }
  }

  lemma IntToBinaryWindow(value: int, n: nat)
    requires n <= 32
    ensures IsWindow(IntToBinary(value, n), value, 0, n)
  {
    forall k | 0 <= k < n
      ensures IntToBinary(value, n)[k] == Digit(Bit(value, n - 1 - k))
    {
      BitCharIsBit(value, n - 1 - k);
    }
  }

  /** `convertIntToBinary(x, 32)` spells out the 32-bit pattern of x: its value is ToUint32(x). */
  lemma IntToBinaryValue(value: int, n: nat)
    requires n <= 32
    ensures UnsignedValue(IntToBinary(value, n)) == Low(ToUint32(value), n)
  {
    IntToBinaryWindow(value, n);
    WindowValue(IntToBinary(value, n), value, 0, n);
  }

  /** `getBitString(x, start, end)` has end-start+1 characters; the k-th from the right is bit start+k. */
  lemma GetBitStringWindow(x: int, start: nat, end: nat)
    requires start <= end < 32
    ensures IsWindow(GetBitString(x, start, end), x, start, end - start + 1)
    ensures UnsignedValue(GetBitString(x, start, end)) == Field(x, start, end - start + 1)
  {
    var s := IntToBinary(x, 32);
    IntToBinaryWindow(x, 32);
    var t := GetBitString(x, start, end);
    assert t == s[31 - end..32 - start];
    assert forall k :: 0 <= k < |t| ==> t[k] == s[31 - end + k];
    WindowValue(t, x, start, end - start + 1);
  }

  /** A signed `convertBinaryToInt` is two's complement; an unsigned one is the plain binary value. */
  lemma TwosComplement(s: string)
    ensures BinaryToInt(s, false) == UnsignedValue(s)
    ensures |s| > 0 ==> BinaryToInt(s, true) == UnsignedValue(s) - (if s[0] == '1' then Pow2(|s|) else 0)
  {
    assert s[0..] == s;
  }

  /** `convertBinaryToInt(convertIntToBinary(v, w))` gives back v for 0 <= v < 2^w. */
  lemma UnsignedRoundTrip(v: int, w: nat)
    requires w <= 32 && 0 <= v < Pow2(w)
    ensures BinaryToInt(IntToBinary(v, w), false) == v
  {
    Pow2Mono(w, 32);
    Pow2Of32();
    Uint32Id(v);
    IntToBinaryValue(v, w);
    LowSelf(v, w);
    TwosComplement(IntToBinary(v, w));
  }

  /** The signed round trip: v comes back for -2^(w-1) <= v < 2^(w-1). */
  lemma SignedRoundTrip(v: int, w: nat)
    requires 1 <= w <= 32 && 0 <= v + Pow2(w - 1) && v < Pow2(w - 1)
    ensures BinaryToInt(IntToBinary(v, w), true) == v
  {
    var t := IntToBinary(v, w);
    var u := ToUint32(v);
    IntToBinaryValue(v, w);
    IntToBinaryWindow(v, w);
    TwosComplement(t);
    LowUint(v, w);
    TopBit(u, w);
    assert t[0] == Digit(Bit(v, w - 1));
    if v >= 0 {
      LowSelf(v, w);
    } else {
      TwiceOne(w);
      LowShift(v, w, 1);
      LowSelf(v + Pow2(w), w);
    }
  }

  /** `extend` never widens: a string no longer than numberOfBits is returned as it is. */
  lemma ExtendNeverWidens(s: string, numberOfBits: nat, signed: bool)
    ensures |s| <= numberOfBits ==> Extended(s, numberOfBits, signed) == s
    ensures |s| > numberOfBits ==> |Extended(s, numberOfBits, signed)| == 2 * |s| - numberOfBits
    ensures Extended(s, numberOfBits, signed)[|Extended(s, numberOfBits, signed)| - |s|..] == s
  {
  }

  /** A window read as a signed binary string is the two's-complement value of the field. */
  lemma SignedWindow(t: string, x: int, start: nat, width: nat)
    requires 1 <= width && start + width <= 32 && IsWindow(t, x, start, width)
    ensures BinaryToInt(t, true) == Field(x, start, width) - (if Bit(x, start + width - 1) then Pow2(width) else 0)
    ensures 0 <= BinaryToInt(t, true) + Pow2(width - 1) && BinaryToInt(t, true) < Pow2(width - 1)
  {
    WindowValue(t, x, start, width);
    TwosComplement(t);
    var u := ToUint32(x);
    var h := Half(u, start);
    TopBit(h, width);
    HalfAdd(u, start, width - 1);
    assert t[0] == Digit(Bit(x, start + width - 1));
  }

  /** Bits start .. end of x, sign-extended as the decoder does, are the two's-complement value of that field. */
  lemma {:induction false} ExtendedField(x: int, start: nat, end: nat, width: nat, span: nat)
    requires start <= end < 32 && width == end - start + 1 && span == Pow2(width)
    ensures BinaryToInt(Extended(GetBitString(x, start, end), 32, true), true)
         == Field(x, start, width) - (if Bit(x, end) then span else 0)
    ensures 0 <= 2 * BinaryToInt(Extended(GetBitString(x, start, end), 32, true), true) + span
    ensures 2 * BinaryToInt(Extended(GetBitString(x, start, end), 32, true), true) < span
  {
    var t := GetBitString(x, start, end);
    GetBitStringWindow(x, start, end);
    ExtendNeverWidens(t, 32, true);
    SignedWindow(t, x, start, width);
  }

  /**
   * The decoder's 20-bit immediate, `convertBinaryToInt(extend(getBitString(x, 0, 19), 32, 1), 1)`,
   * is the two's-complement value of bits 0-19 ...
   */
  lemma Immediate20(x: int)
    ensures BinaryToInt(Extended(GetBitString(x, 0, 19), 32, true), true)
         == Field(x, 0, 20) - (if Bit(x, 19) then 0x10_0000 else 0)
  {
    Pow2Of20();
    ExtendedField(x, 0, 19, 20, 0x10_0000);
  }

  /** ... and lies between -2^19 and 2^19 - 1. */
  lemma Immediate20Range(x: int)
    ensures -0x8_0000 <= BinaryToInt(Extended(GetBitString(x, 0, 19), 32, true), true) < 0x8_0000
  {
    Pow2Of20();
    ExtendedField(x, 0, 19, 20, 0x10_0000);
  }

  // ---------------------------------------------------------------------
  // Short windows character by character, for the decoder's tables
  // ---------------------------------------------------------------------

  function BitValue(b: bool): int {
    if b then 1 else 0
  }

  /** The value of a string of up to five characters, digit by digit. */
  lemma ShortValue(t: string)
    requires 1 <= |t| <= 5
    ensures UnsignedValue(t) == (if |t| == 5 then 16 * BitValue(t[|t| - 5] == '1') else 0)
      + (if |t| >= 4 then 8 * BitValue(t[|t| - 4] == '1') else 0)
      + (if |t| >= 3 then 4 * BitValue(t[|t| - 3] == '1') else 0)
      + (if |t| >= 2 then 2 * BitValue(t[|t| - 2] == '1') else 0)
      + BitValue(t[|t| - 1] == '1')
  {
    assert Pow2(1) == 2 && Pow2(2) == 4 && Pow2(3) == 8 && Pow2(4) == 16;
    if |t| > 1 {
      ShortValue(t[1..]);
    } else {
      assert t[1..] == [];
    }
  }

  /** A three-bit window spelt out character by character, with its value. */
  lemma Window3(t: string, x: int, start: nat)
    requires start + 3 <= 32 && IsWindow(t, x, start, 3)
    ensures t == [Digit(Bit(x, start + 2)), Digit(Bit(x, start + 1)), Digit(Bit(x, start))]
    ensures Field(x, start, 3) == 4 * BitValue(Bit(x, start + 2)) + 2 * BitValue(Bit(x, start + 1)) + BitValue(Bit(x, start))
  {
    WindowValue(t, x, start, 3);
    ShortValue(t);
  }

  /** A four-bit window spelt out character by character, with its value. */
  lemma Window4(t: string, x: int, start: nat)
    requires start + 4 <= 32 && IsWindow(t, x, start, 4)
    ensures t == [Digit(Bit(x, start + 3)), Digit(Bit(x, start + 2)), Digit(Bit(x, start + 1)), Digit(Bit(x, start))]
    ensures Field(x, start, 4) == 8 * BitValue(Bit(x, start + 3)) + 4 * BitValue(Bit(x, start + 2))
      + 2 * BitValue(Bit(x, start + 1)) + BitValue(Bit(x, start))
  {
    WindowValue(t, x, start, 4);
    ShortValue(t);
  }

  /** A five-bit window spelt out character by character, with its value. */
  lemma Window5(t: string, x: int, start: nat)
    requires start + 5 <= 32 && IsWindow(t, x, start, 5)
    ensures t == [Digit(Bit(x, start + 4)), Digit(Bit(x, start + 3)), Digit(Bit(x, start + 2)),
                  Digit(Bit(x, start + 1)), Digit(Bit(x, start))]
    ensures Field(x, start, 5) == 16 * BitValue(Bit(x, start + 4)) + 8 * BitValue(Bit(x, start + 3))
      + 4 * BitValue(Bit(x, start + 2)) + 2 * BitValue(Bit(x, start + 1)) + BitValue(Bit(x, start))
  {
    WindowValue(t, x, start, 5);
    ShortValue(t);
  }
}
