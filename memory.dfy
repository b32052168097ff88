/**
 * The emulator's memory component `MEM`: a byte store with little-endian
 * 16- and 32-bit accessors built from byte reads and writes.
 *
 * `_memory` is a JavaScript array.  Reading an index it does not hold gives
 * `undefined`, and `0xFF & undefined` is 0; writing any index stores there
 * (a write past the end grows the array).  A map from address to stored
 * value has exactly this behaviour, so the store is modelled as one and no
 * address needs a precondition.
 */
module Mem {
  import opened JsNum

  /** `_size`: 256 KiB, addresses 0 .. 0x3FFFF. */
  const SIZE: nat := 256 * 1024

  type Image = map<int, int>

  /** `readb`: the stored byte, or 0 for an address that holds nothing. */
  function ReadByte(m: Image, addr: int): (b: int)
    ensures 0 <= b < 0x100
  {
    if addr in m then AndByte(m[addr]); And(0xFF, m[addr]) else 0
  }

  /** `readw`: two bytes, little-endian. */
  function ReadHalf(m: Image, addr: int): int {
    ReadByte(m, addr) + Shl(ReadByte(m, addr + 1), 8)
  }

  /** `read`: two half-words, little-endian; the `<< 16` makes the result signed. */
  function ReadWord(m: Image, addr: int): int {
    ReadHalf(m, addr) + Shl(ReadHalf(m, addr + 2), 16)
  }

  /** `writeb`: stores the low byte of val. */
  function WriteByte(m: Image, addr: int, val: int): Image {
    m[addr := And(0xFF, val)]
  }

  /** `writew`: val at addr, `val >> 8` at addr + 1. */
  function WriteHalf(m: Image, addr: int, val: int): Image {
    WriteByte(WriteByte(m, addr, val), addr + 1, Sar(val, 8))
  }

  /** `write`: `writew(addr, val)`, then `writew(addr + 2, val >> 16)`. */
  function WriteWord(m: Image, addr: int, val: int): Image {
    WriteHalf(WriteHalf(m, addr, val), addr + 2, Sar(val, 16))
  }

  /** The image `reset` leaves, the same as loading nothing: addresses 0 .. SIZE-1 hold 0. */
  function Zeroed(): Image {
    Loaded([], 0)
  }

  /** The image after `reset` and then `writeb(i, codes[i])` for every i < n. */
  function Loaded(codes: seq<int>, n: nat): Image
    requires n <= |codes|
  {
    var top := if n > SIZE then n else SIZE;
    map a | 0 <= a < top :: if a < n then And(0xFF, codes[a]) else 0
  }

  class Memory {
    /** `_memory`. */
    var cells: Image

    /** `_memory` starts as the empty array. */
    constructor ()
      ensures cells == map[]
    {
      cells := map[];
    }

    method Readb(addr: int) returns (b: int)
      ensures b == ReadByte(cells, addr)
    {
      b := if addr in cells then And(0xFF, cells[addr]) else 0;
    }

    method Readw(addr: int) returns (w: int)
      ensures w == ReadHalf(cells, addr)
    {
      var lo := Readb(addr);
      var hi := Readb(addr + 1);
      w := lo + Shl(hi, 8);
    }

    method Read(addr: int) returns (w: int)
      ensures w == ReadWord(cells, addr)
    {
      var lo := Readw(addr);
      var hi := Readw(addr + 2);
      w := lo + Shl(hi, 16);
    }

    method Writeb(addr: int, val: int)
      modifies this
      ensures cells == WriteByte(old(cells), addr, val)
    {
      cells := cells[addr := And(0xFF, val)];
    }

    method Writew(addr: int, val: int)
      modifies this
      ensures cells == WriteHalf(old(cells), addr, val)
    {
      Writeb(addr, val);
      Writeb(addr + 1, Sar(val, 8));
    }

    method Write(addr: int, val: int)
      modifies this
      ensures cells == WriteWord(old(cells), addr, val)
    {
      Writew(addr, val);
      Writew(addr + 2, Sar(val, 16));
    }

    method Reset()
      modifies this
      ensures cells == Zeroed()
    {
      cells := map[];
      var i := 0;
      while i < SIZE
        invariant 0 <= i <= SIZE
        invariant forall a :: a in cells <==> 0 <= a < i
        invariant forall a :: a in cells ==> cells[a] == 0
      {
        cells := cells[i := 0];
        i := i + 1;
      }
    }

    /**
     * What `loadByteString`, `loadBytes` and `loadBinaryString` share:
     * reset, then write the i-th byte code at address i.
     */
    method Load(codes: seq<int>)
      modifies this
      ensures cells == Loaded(codes, |codes|)
    {
      Reset();
      for i := 0 to |codes|
        invariant cells == Loaded(codes, i)
      {
        Writeb(i, codes[i]);
      }
    }
  }

  // ---------------------------------------------------------------------
  // What reads see after writes
  // ---------------------------------------------------------------------

  /** A stored value reads back as its low byte. */
  lemma ReadStored(m: Image, addr: int, v: int)
    ensures ReadByte(m[addr := And(0xFF, v)], addr) == Low(v, 8)
  {
    AndByte(v);
    AndByte(Low(v, 8));
    LowSelf(Low(v, 8), 8);
  }

  /** `readb(a)` after `writeb(a, v)` is `v & 0xFF`; every other address reads as before. */
  lemma WriteByteThenRead(m: Image, addr: int, v: int, b: int)
    ensures ReadByte(WriteByte(m, addr, v), b) == if b == addr then And(v, 0xFF) else ReadByte(m, b)
  {
    AndByte(v);
    if b == addr {
      ReadStored(m, addr, v);
    }
  }

  /** A write to one address leaves the byte read at any other address as it was. */
  lemma ReadOther(m: Image, addr: int, x: int, b: int)
    requires b != addr
    ensures ReadByte(m[addr := x], b) == ReadByte(m, b)
  {
    assert (b in m[addr := x]) == (b in m);
    if b in m {
      assert m[addr := x][b] == m[b];
    }
  }

  /** The four bytes `write(a, v)` stores are bytes 0-3 of the 32-bit pattern of v. */
  lemma WriteWordBytes(m: Image, addr: int, v: int)
    ensures ReadByte(WriteWord(m, addr, v), addr) == Field(v, 0, 8)
    ensures ReadByte(WriteWord(m, addr, v), addr + 1) == Field(v, 8, 8)
    ensures ReadByte(WriteWord(m, addr, v), addr + 2) == Field(v, 16, 8)
    ensures ReadByte(WriteWord(m, addr, v), addr + 3) == Field(v, 24, 8)
  {
    var s8, s16 := Sar(v, 8), Sar(v, 16);
    var s24 := Sar(s16, 8);
    var x0, x1, x2, x3 := And(0xFF, v), And(0xFF, s8), And(0xFF, s16), And(0xFF, s24);
    var m1 := m[addr := x0];
    var m2 := m1[addr + 1 := x1];
    var m3 := m2[addr + 2 := x2];
    var m4 := m3[addr + 3 := x3];
    assert WriteWord(m, addr, v) == m4;
    ReadStored(m, addr, v);
    ReadStored(m1, addr + 1, s8);
    ReadStored(m2, addr + 2, s16);
    ReadStored(m3, addr + 3, s24);
    ReadOther(m3, addr + 3, x3, addr);
    ReadOther(m2, addr + 2, x2, addr);
    ReadOther(m1, addr + 1, x1, addr);
    ReadOther(m3, addr + 3, x3, addr + 1);
    ReadOther(m2, addr + 2, x2, addr + 1);
    ReadOther(m3, addr + 3, x3, addr + 2);
    ByteFields(v);
  }

  /** Byte k of the 32-bit pattern of v is the low byte of v shifted right by 8k. */
  lemma ByteFields(v: int)
    ensures Low(v, 8) == Field(v, 0, 8)
    ensures Low(Sar(v, 8), 8) == Field(v, 8, 8)
    ensures Low(Sar(v, 16), 8) == Field(v, 16, 8)
    ensures Low(Sar(Sar(v, 16), 8), 8) == Field(v, 24, 8)
  {
    LowUint(v, 8);
    SarSmall(v, 8);
    SignedField(v, 8, 8);
    SarSmall(v, 16);
    SignedField(v, 16, 8);
    var s16 := Sar(v, 16);
    SarSmall(s16, 8);
    Int32Id(s16);
    HalfAdd(ToInt32(v), 16, 8);
    SignedField(v, 24, 8);
  }

  /** `write(a, v)` touches addresses a .. a+3 and nothing else. */
  lemma WriteWordFrame(m: Image, addr: int, v: int)
    ensures WriteWord(m, addr, v).Keys == m.Keys + {addr, addr + 1, addr + 2, addr + 3}
    ensures forall b :: !(addr <= b < addr + 4) ==> ReadByte(WriteWord(m, addr, v), b) == ReadByte(m, b)
  {
  }

  /** The two bytes `writew(a, v)` stores are the low byte of v and the low byte of `v >> 8`. */
  lemma WriteHalfBytes(m: Image, addr: int, v: int)
    ensures ReadByte(WriteHalf(m, addr, v), addr) == Low(v, 8)
    ensures ReadByte(WriteHalf(m, addr, v), addr + 1) == Low(Sar(v, 8), 8)
  {
    var s8 := Sar(v, 8);
    var x0, x1 := And(0xFF, v), And(0xFF, s8);
    var m1 := m[addr := x0];
    var m2 := m1[addr + 1 := x1];
    assert WriteHalf(m, addr, v) == m2;
    ReadStored(m, addr, v);
    ReadStored(m1, addr + 1, s8);
    ReadOther(m1, addr + 1, x1, addr);
  }

  /** `readw` is the byte at a plus 256 times the byte at a + 1, a 16-bit value. */
  lemma ReadHalfBytes(m: Image, addr: int)
    ensures ReadHalf(m, addr) == ReadByte(m, addr) + 0x100 * ReadByte(m, addr + 1)
    ensures 0 <= ReadHalf(m, addr) < 0x1_0000
  {
    ShlByte(ReadByte(m, addr + 1));
  }

  /** `lo + (hi << 16)` for two 16-bit halves is the signed reading of the 32-bit pattern they make. */
  lemma WordValue(lo: int, hi: int)
    requires 0 <= lo < 0x1_0000 && 0 <= hi < 0x1_0000
    ensures lo + Shl(hi, 16) == ToInt32(lo + 0x1_0000 * hi)
  {
    ShlHalf(hi);
    var w := 0x1_0000 * hi;
    if hi < 0x8000 {
      Int32Id(w);
      Int32Id(lo + w);
    } else {
      Int32High(w);
      Int32High(lo + w);
    }
  }

  /** `read` is the signed reading of the two half-words at a and a + 2, low half first. */
  lemma ReadWordHalves(m: Image, addr: int)
    ensures ReadWord(m, addr) == ToInt32(ReadHalf(m, addr) + 0x1_0000 * ReadHalf(m, addr + 2))
  {
    ReadHalfBytes(m, addr);
    ReadHalfBytes(m, addr + 2);
    WordValue(ReadHalf(m, addr), ReadHalf(m, addr + 2));
  }

  /** Two consecutive bytes of a 32-bit pattern make the 16-bit field they cover. */
  lemma HalfPair(v: int, s: nat, s8: nat, lo: nat, hi: nat)
    requires s8 == s + 8
    requires lo == Field(v, s, 8) && hi == Field(v, s8, 8)
    ensures lo + 0x100 * hi == Field(v, s, 16)
  {
    var h := Half(ToUint32(v), s);
    LowSplit(h, 8, 8);
    HalfAdd(ToUint32(v), s, 8);
    Twice8(hi);
  }

  /** The two 16-bit fields of a 32-bit pattern make the pattern. */
  lemma FieldHalves(v: int)
    ensures Field(v, 0, 16) + 0x1_0000 * Field(v, 16, 16) == ToUint32(v)
  {
    var u := ToUint32(v);
    assert Field(v, 0, 16) == Low(u, 16);
    LowHalves(u, Low(u, 16), Field(v, 16, 16));
  }

  lemma LowHalves(u: int, lo: int, hi: int)
    requires 0 <= u < TWO32
    requires lo == Low(u, 16) && hi == Low(Half(u, 16), 16)
    ensures lo + 0x1_0000 * hi == u
  {
    LowSplit(u, 16, 16);
    Twice16(hi);
    Pow2Of32();
    LowSelf(u, 32);
  }

  /** `readw(a)` after `writew(a, v)` is `v & 0xFFFF`. */
  lemma WriteHalfThenRead(m: Image, addr: int, v: int)
    ensures ReadHalf(WriteHalf(m, addr, v), addr) == And(v, 0xFFFF)
  {
    ReadHalfBytes(WriteHalf(m, addr, v), addr);
    WriteHalfBytes(m, addr, v);
    ByteFields(v);
    HalfPair(v, 0, 8, Field(v, 0, 8), Field(v, 8, 8));
    AndHalfword(v);
    LowUint(v, 16);
  }

  /** `read(a)` after `write(a, v)` is ToInt32(v). */
  lemma WriteWordThenRead(m: Image, addr: int, v: int)
    ensures ReadWord(WriteWord(m, addr, v), addr) == ToInt32(v)
  {
    var m4 := WriteWord(m, addr, v);
    ReadWordHalves(m4, addr);
    ReadHalfBytes(m4, addr);
    ReadHalfBytes(m4, addr + 2);
    WriteWordBytes(m, addr, v);
    HalfPair(v, 0, 8, Field(v, 0, 8), Field(v, 8, 8));
    HalfPair(v, 16, 24, Field(v, 16, 8), Field(v, 24, 8));
    FieldHalves(v);
    Int32OfUint32(v);
  }

  /** Whatever the store holds, `read` gives a signed 32-bit value and `readw` a 16-bit one. */
  lemma ReadRanges(m: Image, addr: int)
    ensures 0 <= ReadHalf(m, addr) < 0x1_0000
    ensures IsInt32(ReadWord(m, addr))
  {
    ReadHalfBytes(m, addr);
    ReadWordHalves(m, addr);
  }

  /** After `reset` every address reads 0, and so does every word. */
  lemma ZeroedReadsZero(addr: int)
    ensures ReadByte(Zeroed(), addr) == 0
    ensures ReadWord(Zeroed(), addr) == 0
  {
    forall b | true
      ensures ReadByte(Zeroed(), b) == 0
    {
      AndByte(0);
      assert Low(0, 8) == 0 by {
        LowSelf(0, 8);
      }
    }
    ReadWordHalves(Zeroed(), addr);
    ReadHalfBytes(Zeroed(), addr);
    ReadHalfBytes(Zeroed(), addr + 2);
    Int32Id(0);
  }

  /** After loading, address i < |codes| holds `codes[i] & 0xFF` and the rest of memory reads 0. */
  lemma LoadedReads(codes: seq<int>, addr: int)
    ensures ReadByte(Loaded(codes, |codes|), addr) == if 0 <= addr < |codes| then And(codes[addr], 0xFF) else 0
  {
    var m := Loaded(codes, |codes|);
    if 0 <= addr < |codes| {
      AndByte(codes[addr]);
      ReadStored(m, addr, codes[addr]);
      assert m[addr := And(0xFF, codes[addr])] == m;
    } else if addr in m {
      AndByte(0);
      LowSelf(0, 8);
    }
  }
}
