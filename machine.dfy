/** Machine-level integer vocabulary shared by the whole model: bytes, 32-bit
    unsigned words, powers of two, C's unsigned wrap-around and two's-complement
    reinterpretation, and the bitwise OR/AND of two naturals. */
module Machine {

  /** An 8-bit unsigned value (C's uint8_t). */
  type byte = x: int | 0 <= x < 256

  /** A 32-bit unsigned value (C's unsigned int on the platforms the program targets). */
  type u32 = x: int | 0 <= x < 0x1_0000_0000

  const WORD: nat := 0x1_0000_0000

  function Pow2(n: nat): (r: nat)
    ensures r >= 1
  {
    if n == 0 then 1 else 2 * Pow2(n - 1)
  }

  lemma Pow2Word()
    ensures Pow2(8) == 256 && Pow2(16) == 0x1_0000 && Pow2(24) == 0x100_0000
    ensures Pow2(32) == WORD
  {
    assert Pow2(2) == 4;
    assert Pow2(4) == 16 by { Pow2Add(2, 2); }
    assert Pow2(8) == 256 by { Pow2Add(4, 4); }
    assert Pow2(16) == 0x1_0000 by { Pow2Add(8, 8); }
    assert Pow2(24) == 0x100_0000 by { Pow2Add(16, 8); }
    Pow2Add(16, 16);
  }

  lemma Pow2AtMostWord(n: nat)
    requires n <= 32
    ensures Pow2(n) <= WORD
  {
    Pow2Word();
    Pow2Monotone(n, 32);
  }

  lemma {:induction false} Pow2Add(a: nat, b: nat)
    ensures Pow2(a + b) == Pow2(a) * Pow2(b)
  {
    if b > 0 {
      Pow2Add(a, b - 1);
    }
  }

  lemma {:induction false} Pow2Monotone(a: nat, b: nat)
    requires a <= b
    ensures Pow2(a) <= Pow2(b)
  {
    if a < b {
      Pow2Monotone(a, b - 1);
    }
  }

  /** Euclidean division is determined by a quotient and an in-range remainder. */
  lemma DivModUnique(x: int, d: int, q: int, r: int)
    requires d > 0 && 0 <= r < d && x == q * d + r
    ensures x / d == q && x % d == r
  {
    var q', r' := x / d, x % d;
    assert x == q' * d + r';
    assert (q' - q) * d == r - r';
    if q' > q {
      MulAtLeast(q' - q, d);
    } else if q' < q {
      MulAtLeast(q - q', d);
    }
  }

  lemma MulAtLeast(a: int, d: int)
    requires a >= 1 && d > 0
    ensures a * d >= d
  {
  }

  lemma MulNonNegative(a: nat, b: nat)
    ensures a * b >= 0
  {
  }

  lemma MulStrict(a: int, b: int, c: int)
    requires a < b && c > 0
    ensures a * c < b * c
  {
    MulAtLeast(b - a, c);
    assert b * c - a * c == (b - a) * c;
  }

  lemma DivDiv(x: nat, a: nat, b: nat)
    requires a > 0 && b > 0
    ensures x / a / b == x / (a * b)
  {
    var q := x / a / b;
    var r := (x / a) % b * a + x % a;
    assert x / a == q * b + (x / a) % b;
    assert x == (x / a) * a + x % a;
    assert x == q * (a * b) + r;
    assert r <= (b - 1) * a + (a - 1);
    DivModUnique(x, a * b, q, r);
  }

  /** C's conversion of a mathematical result to unsigned int (reduction modulo 2^32). */
  function Wrap32(x: int): (r: u32)
    ensures (x - r) % WORD == 0
    ensures 0 <= x < WORD ==> r == x
  {
    x % WORD
  }

  /** Two's-complement reinterpretation of an unsigned 32-bit pattern as a signed int. */
  function AsSigned(x: int): (r: int)
    ensures -0x8000_0000 <= r < 0x8000_0000
    ensures (x - r) % WORD == 0
    ensures 0 <= x < 0x8000_0000 ==> r == x
    ensures 0x8000_0000 <= x < WORD ==> r == x - WORD
  {
    var u := Wrap32(x);
    if u >= 0x8000_0000 then u - WORD else u
  }

  /** DDS_shiftl: a left shift by 32 or more yields 0 instead of undefined
      behaviour; otherwise the bits shifted out of the word are lost. */
  function ShiftL(value: u32, bits: nat): (r: u32)
    ensures bits >= 32 ==> r == 0
    ensures bits == 0 ==> r == value
  {
    if bits >= 32 then 0 else Shl(value, bits)
  }

  /** value << bits on an unsigned int, one doubling at a time. */
  function Shl(value: u32, bits: nat): u32
  {
    if bits == 0 then value else Wrap32(2 * Shl(value, bits - 1))
  }

  /** DDS_shiftr: a right shift by 32 or more yields 0 instead of undefined behaviour. */
  function ShiftR(value: u32, bits: nat): (r: u32)
    ensures r <= value
    ensures bits >= 32 ==> r == 0
  {
    if bits >= 32 then 0 else Shr(value, bits)
  }

  /** value >> bits, one halving at a time. */
  function Shr(value: nat, bits: nat): (r: nat)
    ensures r <= value
  {
    if bits == 0 then value else Shr(value, bits - 1) / 2
  }

  /** A left shift is multiplication by 2^bits reduced modulo 2^32. */
  lemma {:induction false} ShlValue(value: u32, bits: nat)
    ensures Shl(value, bits) == (value * Pow2(bits)) % WORD
  {
    if bits > 0 {
      var x := value * Pow2(bits - 1);
      MulNonNegative(value, Pow2(bits - 1));
      calc {
        Shl(value, bits);
        (2 * Shl(value, bits - 1)) % WORD;
        { ShlValue(value, bits - 1); }
        (2 * (x % WORD)) % WORD;
        { DoubleMod(x, WORD); }
        (2 * x) % WORD;
        { MulDouble(value, Pow2(bits - 1)); }
        (value * Pow2(bits)) % WORD;
      }
    }
  }

  lemma MulDouble(a: int, h: int)
    ensures a * (2 * h) == 2 * (a * h)
  {
  }

  /** Doubling commutes with reduction modulo d. */
  lemma DoubleMod(x: nat, d: nat)
    requires d > 0
    ensures (2 * (x % d)) % d == (2 * x) % d
  {
    var q, r := x / d, x % d;
    var q2, r2 := (2 * r) / d, (2 * r) % d;
    assert 2 * x == (2 * q + q2) * d + r2;
    DivModUnique(2 * x, d, 2 * q + q2, r2);
  }

  /** A right shift is division by 2^bits. */
  lemma {:induction false} ShrValue(value: nat, bits: nat)
    ensures Shr(value, bits) == value / Pow2(bits)
  {
    if bits > 0 {
      ShrValue(value, bits - 1);
      DivDiv(value, Pow2(bits - 1), 2);
    }
  }

  /** DDS_shiftl below 32 bits: multiplication modulo 2^32. */
  lemma ShiftLValue(value: u32, bits: nat)
    requires bits < 32
    ensures ShiftL(value, bits) == (value * Pow2(bits)) % WORD
  {
    ShlValue(value, bits);
  }

  /** DDS_shiftr is division by 2^bits, also for 32 bits or more. */
  lemma ShiftRValue(value: u32, bits: nat)
    ensures ShiftR(value, bits) == value / Pow2(bits)
  {
    if bits >= 32 {
      Pow2Word();
      Pow2Monotone(32, bits);
      DivModUnique(value, Pow2(bits), 0, value);
    } else {
      ShrValue(value, bits);
    }
  }

  /** A left shift that does not overflow is a multiplication. */
  lemma ShiftLFits(value: u32, bits: nat)
    requires value * Pow2(bits) < WORD
    ensures ShiftL(value, bits) == value * Pow2(bits)
  {
    if bits >= 32 {
      ShiftLOut(value, bits);
    } else {
      ShiftLIn(value, bits);
    }
  }

  lemma ShiftLOut(value: u32, bits: nat)
    requires bits >= 32 && value * Pow2(bits) < WORD
    ensures value * Pow2(bits) == 0
  {
    Pow2AtLeastWord(bits);
    SmallProduct(value, Pow2(bits));
  }

  lemma ShiftLIn(value: u32, bits: nat)
    requires bits < 32 && value * Pow2(bits) < WORD
    ensures Shl(value, bits) == value * Pow2(bits)
  {
    MulNonNegative(value, Pow2(bits));
    ShlValue(value, bits);
    SmallMod(value * Pow2(bits));
  }

  lemma SmallMod(x: int)
    requires 0 <= x < WORD
    ensures x % WORD == x
  {
    DivModUnique(x, WORD, 0, x);
  }

  lemma Pow2AtLeastWord(bits: nat)
    requires bits >= 32
    ensures Pow2(bits) >= WORD
  {
    Pow2Word();
    Pow2Monotone(32, bits);
  }

  /** A product of naturals below one of its factors has a zero other factor. */
  lemma SmallProduct(a: nat, b: nat)
    requires a * b < b
    ensures a == 0
  {
    if a > 0 {
      MulAtLeast(a, b);
    }
  }

  /** Bitwise OR of two naturals, bit by bit from the least significant end. */
  function BitOr(a: nat, b: nat): nat
    decreases a + b
  {
    if a == 0 then b
    else if b == 0 then a
    else 2 * BitOr(a / 2, b / 2) + (if a % 2 == 1 || b % 2 == 1 then 1 else 0)
  }

  /** Bitwise AND of two naturals, bit by bit from the least significant end. */
  function BitAnd(a: nat, b: nat): (r: nat)
    ensures r <= a && r <= b
    decreases a + b
  {
    if a == 0 || b == 0 then 0
    else 2 * BitAnd(a / 2, b / 2) + (if a % 2 == 1 && b % 2 == 1 then 1 else 0)
  }

  /** OR of a value shifted left by k and a value below 2^k is their sum. */
  lemma {:induction false} BitOrDisjoint(m: nat, k: nat, b: nat)
    requires b < Pow2(k)
    ensures BitOr(m * Pow2(k), b) == m * Pow2(k) + b
  {
    if k == 0 || m == 0 || b == 0 {
      BitOrTrivial(m, k, b);
    } else {
      BitOrDisjoint(m, k - 1, b / 2);
      MulPow2Step(m, k);
      BitOrStep(m * Pow2(k), m * Pow2(k - 1), b);
    }
  }

  lemma BitOrTrivial(m: nat, k: nat, b: nat)
    requires b < Pow2(k) && (k == 0 || m == 0 || b == 0)
    ensures BitOr(m * Pow2(k), b) == m * Pow2(k) + b
  {
  }

  lemma MulPow2Step(m: nat, k: nat)
    requires k > 0
    ensures m * Pow2(k) == 2 * (m * Pow2(k - 1))
  {
    MulDouble(m, Pow2(k - 1));
  }

  /** One bit of BitOrDisjoint: an even a contributes no low bit. */
  lemma BitOrStep(a: nat, h: nat, b: nat)
    requires a == 2 * h && BitOr(h, b / 2) == h + b / 2
    ensures BitOr(a, b) == a + b
  {
  }

  lemma ModDouble(x: nat, p: nat)
    requires p > 0
    ensures x % (2 * p) == 2 * ((x / 2) % p) + x % 2
  {
    var q := (x / 2) / p;
    var s := (x / 2) % p;
    assert x / 2 == q * p + s;
    assert x == 2 * (x / 2) + x % 2;
    assert x == q * (2 * p) + (2 * s + x % 2);
    DivModUnique(x, 2 * p, q, 2 * s + x % 2);
  }

  /** AND with the mask 2^k - 1 keeps the low k bits. */
  lemma {:induction false} BitAndMask(x: nat, k: nat)
    ensures BitAnd(x, Pow2(k) - 1) == x % Pow2(k)
  {
    if k == 0 {
      DivModUnique(x, 1, x, 0);
    } else if x == 0 {
      DivModUnique(0, Pow2(k), 0, 0);
    } else {
      BitAndMask(x / 2, k - 1);
      BitAndStep(x, Pow2(k - 1), Pow2(k));
    }
  }

  /** One bit of BitAndMask: the mask 2p - 1 has its low bit set. */
  lemma BitAndStep(x: nat, h: nat, p: nat)
    requires 0 < x && 0 < h && p == 2 * h && BitAnd(x / 2, h - 1) == (x / 2) % h
    ensures BitAnd(x, p - 1) == x % p
  {
    DivModUnique(p - 1, 2, h - 1, 1);
    ModDouble(x, h);
  }
}
