/** The DDS bit reader (Formats/DDSLoader.cpp:45-124): a payload padded with
    zero bytes to a whole number of 32-bit words, read as one big-endian bit
    string through a 32-bit shift register. */
module DdsBits {
  import opened Machine

  // ---------------------------------------------------------------------------
  // The payload as a big-endian bit string

  /** Bit i of the payload, most significant bit of each byte first; every bit
      past the end of the payload is 0. */
  function Bit(p: seq<byte>, i: nat): nat
  {
    if i / 8 < |p| then Shr(p[i / 8], 7 - i % 8) % 2 else 0
  }

  /** The n bits starting at bit position start, read as a big-endian number. */
  function BitsValue(p: seq<byte>, start: nat, n: nat): nat
  {
    if n == 0 then 0 else 2 * BitsValue(p, start, n - 1) + Bit(p, start + n - 1)
  }

  /** An n-bit field is below 2^n. */
  lemma {:induction false} BitsBound(p: seq<byte>, start: nat, n: nat)
    ensures BitsValue(p, start, n) < Pow2(n)
  {
    if n > 0 {
      BitsBound(p, start, n - 1);
    }
  }

  /** Reading m bits and then n bits yields the same bits as one (m+n)-bit read:
      the bit string is consecutive. */
  lemma {:induction false} BitsSplit(p: seq<byte>, start: nat, m: nat, n: nat)
    ensures BitsValue(p, start, m + n) == BitsValue(p, start, m) * Pow2(n) + BitsValue(p, start + m, n)
  {
    if n > 0 {
      BitsSplit(p, start, m, n - 1);
      JoinStep(BitsValue(p, start, m + n), BitsValue(p, start, m + (n - 1)), BitsValue(p, start, m),
               Pow2(n - 1), Pow2(n), BitsValue(p, start + m, n - 1), BitsValue(p, start + m, n),
               Bit(p, start + m + n - 1));
    }
  }

  /** The arithmetic of one step of BitsSplit: x = 2y + bit with y = a h + b. */
  lemma JoinStep(x: int, y: int, a: int, h: int, ph: int, b: int, z: int, bit: int)
    requires x == 2 * y + bit && y == a * h + b && z == 2 * b + bit && ph == 2 * h
    ensures x == a * ph + z
  {
  }

  /** The top m bits and the low n bits of an (m+n)-bit field. */
  lemma BitsHighLow(p: seq<byte>, start: nat, m: nat, n: nat)
    ensures BitsValue(p, start, m + n) / Pow2(n) == BitsValue(p, start, m)
    ensures BitsValue(p, start, m + n) % Pow2(n) == BitsValue(p, start + m, n)
  {
    BitsSplit(p, start, m, n);
    BitsBound(p, start + m, n);
    DivModUnique(BitsValue(p, start, m + n), Pow2(n), BitsValue(p, start, m), BitsValue(p, start + m, n));
  }

  /** Past the end of the payload every field reads as 0. */
  lemma {:induction false} BitsPastEnd(p: seq<byte>, start: nat, n: nat)
    requires 8 * |p| <= start
    ensures BitsValue(p, start, n) == 0
  {
    if n > 0 {
      BitsPastEnd(p, start, n - 1);
      assert (start + n - 1) / 8 >= |p|;
    }
  }

  /** A field that is not 0 starts inside the payload. */
  lemma NonZeroInside(p: seq<byte>, start: nat, n: nat)
    requires BitsValue(p, start, n) != 0
    ensures start < 8 * |p|
  {
    if 8 * |p| <= start {
      BitsPastEnd(p, start, n);
    }
  }

  /** The first n bits of byte q are the byte shifted right by 8 - n. */
  lemma {:induction false} ByteBits(p: seq<byte>, q: nat, n: nat)
    requires q < |p| && n <= 8
    ensures BitsValue(p, 8 * q, n) == Shr(p[q], 8 - n)
  {
    if n > 0 {
      ByteBits(p, q, n - 1);
      var y := Shr(p[q], 8 - n);
      assert (8 * q + n - 1) / 8 == q && (8 * q + n - 1) % 8 == n - 1 by {
        DivModUnique(8 * q + n - 1, 8, q, n - 1);
      }
      assert Shr(p[q], 9 - n) == y / 2;
      assert Bit(p, 8 * q + n - 1) == y % 2;
      assert BitsValue(p, 8 * q, n) == 2 * (y / 2) + y % 2;
    } else {
      ShrValue(p[q], 8);
      assert Pow2(8) == 256;
      DivModUnique(p[q], 256, 0, p[q]);
    }
  }

  /** The four bytes at q, most significant first. */
  function BeWord(c: seq<byte>, q: nat): (r: u32)
    requires q + 4 <= |c|
  {
    (c[q] as int) * 0x100_0000 + (c[q + 1] as int) * 0x1_0000 + (c[q + 2] as int) * 0x100 + c[q + 3] as int
  }

  /** The four bytes at q, least significant first (a native load on a little-endian host). */
  function LeWord(c: seq<byte>, q: nat): (r: u32)
    requires q + 4 <= |c|
  {
    (c[q + 3] as int) * 0x100_0000 + (c[q + 2] as int) * 0x1_0000 + (c[q + 1] as int) * 0x100 + c[q] as int
  }

  /** Appending byte q + m to the field that covers bytes q .. q + m - 1. */
  lemma ByteStep(p: seq<byte>, q: nat, m: nat)
    requires q + m < |p|
    ensures BitsValue(p, 8 * q, 8 * m + 8) == BitsValue(p, 8 * q, 8 * m) * 256 + p[q + m] as int
  {
    assert Pow2(8) == 256;
    ByteBits(p, q + m, 8);
    assert 8 * (q + m) == 8 * q + 8 * m;
    BitsSplit(p, 8 * q, 8 * m, 8);
  }

  /** A big-endian word read at byte q is the 32-bit field at bit 8q. */
  lemma WordBits(p: seq<byte>, q: nat)
    requires q + 4 <= |p|
    ensures BitsValue(p, 8 * q, 32) == BeWord(p, q)
  {
    ByteBits(p, q, 8);
    ByteStep(p, q, 1);
    ByteStep(p, q, 2);
    ByteStep(p, q, 3);
  }

  /** DDS_swapuint: reverse the four bytes of a word. */
  function SwapUint(x: u32): (r: u32)
  {
    (x % 0x100) * 0x100_0000 + ((x / 0x100) % 0x100) * 0x1_0000
      + ((x / 0x1_0000) % 0x100) * 0x100 + x / 0x100_0000
  }

  /** On a little-endian host, the native load followed by DDS_swapuint yields the
      big-endian word, which is what the model reads directly. */
  lemma SwapUintReadsBigEndian(c: seq<byte>, q: nat)
    requires q + 4 <= |c|
    ensures SwapUint(LeWord(c, q)) == BeWord(c, q)
    ensures SwapUint(BeWord(c, q)) == LeWord(c, q)
  {
    SwapBytes(c[q + 3], c[q + 2], c[q + 1], c[q], LeWord(c, q), BeWord(c, q));
    SwapBytes(c[q], c[q + 1], c[q + 2], c[q + 3], BeWord(c, q), LeWord(c, q));
  }

  /** Swapping the word with bytes b0 (most significant) .. b3 gives the word b3 .. b0. */
  lemma SwapBytes(b0: byte, b1: byte, b2: byte, b3: byte, x: u32, y: u32)
    requires x == b0 * 0x100_0000 + b1 * 0x1_0000 + b2 * 0x100 + b3
    requires y == b3 * 0x100_0000 + b2 * 0x1_0000 + b1 * 0x100 + b0
    ensures SwapUint(x) == y
  {
    DivModUnique(x, 0x100, b0 * 0x1_0000 + b1 * 0x100 + b2, b3);
    DivModUnique(x, 0x100_0000, b0, b1 * 0x1_0000 + b2 * 0x100 + b3);
    DivModUnique(x, 0x1_0000, b0 * 0x100 + b1, b2 * 0x100 + b3);
    DivModUnique(x / 0x100, 0x100, b0 * 0x100 + b1, b2);
    DivModUnique(x / 0x1_0000, 0x100, b0, b1);
  }

  // ---------------------------------------------------------------------------
  // DDS_loadbits: zero padding to whole words

  /** The payload followed by zero bytes up to the next multiple of 4. */
  function Pad(data: seq<byte>): (c: seq<byte>)
    ensures |c| % 4 == 0 && |data| <= |c| < |data| + 4
    ensures c[..|data|] == data
    ensures forall i :: |data| <= i < |c| ==> c[i] == 0
  {
    var size := 4 * ((|data| + 3) / 4);
    data + seq(size - |data|, _ => 0)
  }

  /** The padding does not change the bit string. */
  lemma {:induction false} PadBits(data: seq<byte>, start: nat, n: nat)
    ensures BitsValue(Pad(data), start, n) == BitsValue(data, start, n)
  {
    if n > 0 {
      PadBits(data, start, n - 1);
      PadBit(data, start + n - 1);
    }
  }

  lemma PadBit(data: seq<byte>, i: nat)
    ensures Bit(Pad(data), i) == Bit(data, i)
  {
    var c := Pad(data);
    var q := i / 8;
    if q < |data| {
      assert c[q] == c[..|data|][q];
    } else if q < |c| {
      assert c[q] == 0;
      DivModUnique(0, Pow2(7 - i % 8), 0, 0);
    }
  }

  // ---------------------------------------------------------------------------
  // The cursor: DDS_buffer, DDS_bufsize, DDS_cache and DDS_cachepos

  /** The cursor's invariant on its field values: the cache is the padded
      payload, the register holds the bufsize bits that follow the consumed
      ones, and the cache position is where those bits end (or the cache is
      used up). */
  ghost predicate Holds(payload: seq<byte>, consumed: nat, cache: seq<byte>, cachepos: nat,
                        buffer: u32, bufsize: nat)
  {
    && cache == Pad(payload)
    && cachepos % 4 == 0 && cachepos <= |cache|
    && bufsize <= 32
    && buffer == BitsValue(payload, consumed, bufsize)
    && (consumed + bufsize == 8 * cachepos
        || (cachepos == |cache| && 8 * cachepos <= consumed + bufsize))
  }

  class BitCursor {
    /** DDS_cache: the padded payload (DDS_cachesize is its length). */
    var cache: seq<byte>
    /** DDS_cachepos: byte offset of the next word to load. */
    var cachepos: nat
    /** DDS_buffer: the unread low bits of the last word loaded. */
    var buffer: u32
    /** DDS_bufsize: how many low bits of buffer are unread. */
    var bufsize: nat

    /** The payload before padding, and the number of bits handed out so far. */
    ghost var payload: seq<byte>
    ghost var consumed: nat

    ghost predicate Valid()
      reads this
    {
      Holds(payload, consumed, cache, cachepos, buffer, bufsize)
    }

    /** DDS_initbuffer, DDS_clearbits and DDS_loadbits(data, size). */
    constructor (data: seq<byte>)
      ensures Valid() && payload == data && consumed == 0
      ensures |cache| % 4 == 0 && |data| <= |cache| < |data| + 4
    {
      payload := data;
      cache := Pad(data);
      cachepos := 0;
      buffer := 0;
      bufsize := 0;
      consumed := 0;
    }

    /** DDS_readbits(bits): the next `bits` bits of the payload. */
    method ReadBits(bits: nat) returns (value: u32)
      requires Valid() && bits <= 32
      modifies this
      ensures Valid() && payload == old(payload)
      ensures consumed == old(consumed) + bits
      ensures value == BitsValue(payload, old(consumed), bits)
    {
      if bits < bufsize {
        value := TakeHeld(bits);
      } else {
        value := TakeRefilled(bits);
      }
    }

    /** The first branch of DDS_readbits: the register holds more bits than
        requested, so the top ones are returned and the rest stay. */
    method TakeHeld(bits: nat) returns (value: u32)
      requires Valid() && bits < bufsize
      modifies this
      ensures Valid() && payload == old(payload)
      ensures consumed == old(consumed) + bits
      ensures value == BitsValue(payload, old(consumed), bits)
    {
      var reg, rest := buffer, bufsize - bits;
      FromRegister(payload, consumed, bits, rest, reg);
      value := ShiftR(reg, rest);
      var keep := BitAnd(reg, Wrap32(ShiftL(1, rest) - 1));
      bufsize, buffer, consumed := rest, keep, consumed + bits;
    }

    /** The second branch of DDS_readbits: the held bits become the top of the
        result, the next word of the cache (or 0 past its end) is loaded, and
        its top bits complete the result. */
    method TakeRefilled(bits: nat) returns (value: u32)
      requires Valid() && bufsize <= bits <= 32
      modifies this
      ensures Valid() && payload == old(payload)
      ensures consumed == old(consumed) + bits
      ensures value == BitsValue(payload, old(consumed), bits)
    {
      ghost var start, p := consumed, payload;
      var held, reg := bufsize, buffer;
      var top := ShiftL(reg, bits - held);
      var word, pos := LoadWord(cache, cachepos, p, start + held);
      var rest := held + 32 - bits;
      RefillValue(p, start, held, bits, reg, word, rest, top);
      value := BitOr(top, ShiftR(word, rest));
      ghost var next := start + bits;
      var keep := BitAnd(word, Wrap32(ShiftL(1, rest) - 1));
      FreshTail(p, start + held, bits - held, word, rest, next);
      bufsize, buffer, consumed, cachepos := rest, keep, next, pos;
    }
  }

  /** The refill inside DDS_readbits: the word of the cache at byte pos, or 0
      once the cache is used up, and the advanced position; `next` is the bit
      position that word starts at. */
  method LoadWord(cache: seq<byte>, pos: nat, ghost payload: seq<byte>, ghost next: nat)
    returns (word: u32, after: nat)
    requires cache == Pad(payload) && pos % 4 == 0 && pos <= |cache|
    requires next == 8 * pos || (pos == |cache| && 8 * pos <= next)
    ensures word == BitsValue(payload, next, 32)
    ensures after % 4 == 0 && after <= |cache|
    ensures next + 32 == 8 * after || (after == |cache| && 8 * after <= next + 32)
  {
    if pos >= |cache| {
      word, after := 0, pos;
      BitsPastEnd(payload, next, 32);
    } else {
      WholeWords(pos, |cache|);
      word, after := BeWord(cache, pos), pos + 4;
      WordBits(cache, pos);
      PadBits(payload, 8 * pos, 32);
    }
  }

  /** The register already holds more bits than requested: the top ones are the
      result and the mask keeps the rest. */
  lemma FromRegister(p: seq<byte>, start: nat, bits: nat, rest: nat, reg: u32)
    requires bits + rest <= 32 && reg == BitsValue(p, start, bits + rest)
    ensures ShiftR(reg, rest) == BitsValue(p, start, bits)
    ensures BitAnd(reg, Wrap32(ShiftL(1, rest) - 1)) == BitsValue(p, start + bits, rest) < WORD
  {
    FieldFits(p, start, bits + rest);
    BitsHighLow(p, start, bits, rest);
    ShiftRValue(BitsValue(p, start, bits + rest), rest);
    LowBits(BitsValue(p, start, bits + rest), rest);
  }

  /** The register runs dry: its held bits become the top of the result, the
      fresh word supplies the rest, and the mask keeps the unread tail of the
      word. */
  lemma RefillValue(p: seq<byte>, start: nat, held: nat, bits: nat, reg: u32, word: u32,
                    rest: nat, top: u32)
    requires held <= bits <= 32
    requires reg == BitsValue(p, start, held)
    requires word == BitsValue(p, start + held, 32)
    requires rest == held + 32 - bits && top == ShiftL(reg, bits - held)
    ensures BitOr(top, ShiftR(word, rest)) == BitsValue(p, start, bits) < WORD
  {
    HeldShift(p, start, held, bits);
    FreshTop(p, start + held, bits - held, word, rest);
    HeldJoinsFresh(p, start, held, bits);
    FieldFits(p, start, bits);
  }

  lemma HeldShift(p: seq<byte>, start: nat, held: nat, bits: nat)
    requires held <= bits <= 32
    ensures BitsValue(p, start, held) < WORD
    ensures ShiftL(BitsValue(p, start, held), bits - held) == BitsValue(p, start, held) * Pow2(bits - held)
  {
    HeldShiftFits(p, start, held, bits);
    FieldFits(p, start, held);
    ShiftLFits(BitsValue(p, start, held), bits - held);
  }

  lemma FreshTop(p: seq<byte>, at: nat, k: nat, word: u32, rest: nat)
    requires k <= 32 && rest == 32 - k && word == BitsValue(p, at, 32)
    ensures ShiftR(word, rest) == BitsValue(p, at, k)
  {
    ShiftRValue(word, rest);
    BitsHighLow(p, at, k, rest);
  }

  lemma FreshTail(p: seq<byte>, at: nat, k: nat, word: u32, rest: nat, next: nat)
    requires k <= 32 && rest == 32 - k && next == at + k && word == BitsValue(p, at, 32)
    ensures BitAnd(word, Wrap32(ShiftL(1, rest) - 1)) == BitsValue(p, next, rest) < WORD
  {
    LowBits(word, rest);
    BitsHighLow(p, at, k, rest);
  }

  /** DDS_buffer &= DDS_shiftl(1, DDS_bufsize) - 1 keeps the low DDS_bufsize bits;
      for a 32-bit mask the subtraction wraps around to all ones. */
  lemma LowBits(x: u32, n: nat)
    requires n <= 32
    ensures BitAnd(x, Wrap32(ShiftL(1, n) - 1)) == x % Pow2(n) <= x
  {
    MaskValue(n);
    BitAndMask(x, n);
  }

  /** DDS_shiftl(1, n) - 1, as an unsigned int, is the mask of the low n bits. */
  lemma MaskValue(n: nat)
    requires n <= 32
    ensures Wrap32(ShiftL(1, n) - 1) == Pow2(n) - 1
  {
    if n < 32 {
      ShiftOne(n);
    } else {
      ShiftOneOut();
    }
  }

  lemma ShiftOne(n: nat)
    requires n < 32
    ensures ShiftL(1, n) == Pow2(n) && Pow2(n) <= WORD
  {
    Pow2AtMostWord(n + 1);
    ShiftLFits(1, n);
  }

  lemma ShiftOneOut()
    ensures Wrap32(ShiftL(1, 32) - 1) == WORD - 1 && Pow2(32) == WORD
  {
    Pow2Word();
    DivModUnique(-1, WORD, -1, WORD - 1);
  }

  /** A word-aligned position before the end of a word-aligned buffer leaves
      room for a whole word. */
  lemma WholeWords(pos: nat, size: nat)
    requires pos % 4 == 0 && size % 4 == 0 && pos < size
    ensures pos + 4 <= size && (pos + 4) % 4 == 0
  {
    assert pos == 4 * (pos / 4) && size == 4 * (size / 4);
    DivModUnique(pos + 4, 4, pos / 4 + 1, 0);
  }

  /** The bits still held in the register, shifted up to make room for the
      fresh ones, stay inside a word. */
  lemma HeldShiftFits(p: seq<byte>, start: nat, held: nat, bits: nat)
    requires held <= bits <= 32
    ensures 0 <= BitsValue(p, start, held) * Pow2(bits - held) < WORD
  {
    var k := bits - held;
    var high := BitsValue(p, start, held);
    MulNonNegative(high, Pow2(k));
    BitsBound(p, start, held);
    MulStrict(high, Pow2(held), Pow2(k));
    Pow2Add(held, k);
    Pow2AtMostWord(bits);
  }

  /** OR-ing the shifted held bits with the top of the fresh word gives the
      requested field. */
  lemma HeldJoinsFresh(p: seq<byte>, start: nat, held: nat, bits: nat)
    requires held <= bits
    ensures BitOr(BitsValue(p, start, held) * Pow2(bits - held), BitsValue(p, start + held, bits - held))
         == BitsValue(p, start, bits)
  {
    var k := bits - held;
    MulNonNegative(BitsValue(p, start, held), Pow2(k));
    BitsBound(p, start + held, k);
    BitOrDisjoint(BitsValue(p, start, held), k, BitsValue(p, start + held, k));
    BitsSplit(p, start, held, k);
  }

  /** A field of at most 32 bits fits in an unsigned int. */
  lemma FieldFits(p: seq<byte>, start: nat, n: nat)
    requires n <= 32
    ensures BitsValue(p, start, n) < WORD
  {
    BitsBound(p, start, n);
    Pow2AtMostWord(n);
  }

  /** Once the bits handed out reach the end of the payload, every read yields 0. */
  lemma ExhaustedReadsZero(c: BitCursor, n: nat)
    requires c.Valid() && 8 * |c.payload| <= c.consumed
    ensures BitsValue(c.payload, c.consumed, n) == 0
  {
    BitsPastEnd(c.payload, c.consumed, n);
  }
}
