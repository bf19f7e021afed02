/** The C library's view of a byte buffer that the container parsers rely on:
    NUL-terminated strings, strchr, strlen, and the sscanf conversions %d, %1d
    and %g with the whitespace rule of scanf formats. */
module CText {
  import opened Machine

  datatype Option<T> = None | Some(value: T)

  /** A conversion's value and the index just past the characters it consumed. */
  datatype Scanned<T> = Scanned(value: T, next: nat)

  const NEWLINE: byte := 10
  const SPACE: byte := 32
  const HASH: byte := 35
  const PLUS: byte := 43
  const MINUS: byte := 45
  const DOT: byte := 46
  const ZERO: byte := 48

  /** isspace in the C locale: space, \t, \n, \v, \f and \r. */
  predicate IsSpace(b: byte)
  {
    b == SPACE || 9 <= b <= 13
  }

  predicate IsDigit(b: byte)
  {
    ZERO <= b <= ZERO + 9
  }

  // ---------------------------------------------------------------------------
  // Strings

  /** The C string at pos: the bytes up to the first NUL, or up to the end of
      the buffer, which the callers terminate with a NUL. */
  function CString(d: seq<byte>, pos: nat): (s: seq<byte>)
    requires pos <= |d|
    ensures pos + |s| <= |d| && s == d[pos..pos + |s|]
    ensures forall k :: 0 <= k < |s| ==> s[k] != 0
    ensures pos + |s| == |d| || d[pos + |s|] == 0
    decreases |d| - pos
  {
    if pos == |d| || d[pos] == 0 then [] else [d[pos]] + CString(d, pos + 1)
  }

  /** The first index from i on that holds b, or None: a loop that looks for
      b byte by byte without stopping at a NUL. */
  function Find(s: seq<byte>, i: nat, b: byte): (r: Option<nat>)
    requires i <= |s|
    ensures r.Some? ==> i <= r.value < |s| && s[r.value] == b
    ensures r.Some? ==> forall k :: i <= k < r.value ==> s[k] != b
    ensures r.None? ==> forall k :: i <= k < |s| ==> s[k] != b
    decreases |s| - i
  {
    if i == |s| then None else if s[i] == b then Some(i) else Find(s, i + 1, b)
  }

  /** strchr(s + i, b) for a non-NUL byte b: the first b of the C string at i,
      or None when the string ends first. */
  function StrChr(s: seq<byte>, i: nat, b: byte): (r: Option<nat>)
    requires i <= |s| && b != 0
    ensures r.Some? ==> i <= r.value < |s| && s[r.value] == b
    ensures r.Some? ==> forall k :: i <= k < r.value ==> s[k] != b && s[k] != 0
    ensures r.None? ==> forall k :: i <= k < i + StrLen(s, i) ==> s[k] != b
    decreases |s| - i
  {
    if i == |s| || s[i] == 0 then None else if s[i] == b then Some(i) else StrChr(s, i + 1, b)
  }

  /** strlen(s + i). */
  function StrLen(s: seq<byte>, i: nat): (n: nat)
    requires i <= |s|
    ensures i + n <= |s| && (i + n == |s| || s[i + n] == 0)
    ensures forall k :: i <= k < i + n ==> s[k] != 0
    decreases |s| - i
  {
    if i == |s| || s[i] == 0 then 0 else 1 + StrLen(s, i + 1)
  }

  /** s[i..e] is exactly count C strings, each followed by its terminating
      NUL. */
  predicate CStrings(s: seq<byte>, i: nat, e: nat, count: nat)
    requires i <= e <= |s|
    decreases count
  {
    if count == 0 then i == e
    else i + StrLen(s, i) < e && CStrings(s, i + StrLen(s, i) + 1, e, count - 1)
  }

  /** strlen is the distance to the first NUL. */
  lemma StrLenUnique(s: seq<byte>, i: nat, n: nat)
    requires i + n < |s| && s[i + n] == 0
    requires forall k :: i <= k < i + n ==> s[k] != 0
    ensures StrLen(s, i) == n
  {
  }

  /** C strings found in d from o + i to o + e are found in a copy of d from o
      at i to e. */
  lemma {:induction false} CStringsShift(d: seq<byte>, c: seq<byte>, o: nat, i: nat, e: nat, count: nat)
    requires o + |c| <= |d| && c == d[o..o + |c|] && i <= e <= |c|
    requires CStrings(d, o + i, o + e, count)
    ensures CStrings(c, i, e, count)
    decreases count
  {
    if count > 0 {
      var n := StrLen(d, o + i);
      assert c[i + n] == d[o + i + n];
      forall k | i <= k < i + n ensures c[k] != 0 {
        assert c[k] == d[o + k];
      }
      StrLenUnique(c, i, n);
      CStringsShift(d, c, o, i + n + 1, e, count - 1);
    }
  }

  // ---------------------------------------------------------------------------
  // sscanf conversions

  /** The index of the first non-space byte from i on (a whitespace directive,
      and the skip every numeric conversion starts with). */
  function SkipSpace(s: seq<byte>, i: nat): (j: nat)
    requires i <= |s|
    ensures i <= j <= |s| && (j == |s| || !IsSpace(s[j]))
    ensures forall k :: i <= k < j ==> IsSpace(s[k])
    decreases |s| - i
  {
    if i < |s| && IsSpace(s[i]) then SkipSpace(s, i + 1) else i
  }

  /** The end of the run of decimal digits starting at i. */
  function DigitsEnd(s: seq<byte>, i: nat): (j: nat)
    requires i <= |s|
    ensures i <= j <= |s| && (j == |s| || !IsDigit(s[j]))
    ensures forall k :: i <= k < j ==> IsDigit(s[k])
    decreases |s| - i
  {
    if i < |s| && IsDigit(s[i]) then DigitsEnd(s, i + 1) else i
  }

  /** The decimal value of the digits s[i..j]. */
  function DigitsValue(s: seq<byte>, i: nat, j: nat): (v: nat)
    requires i <= j <= |s|
    requires forall k :: i <= k < j ==> IsDigit(s[k])
    ensures j > i && s[i] != ZERO ==> v > 0
  {
    if j == i then 0 else
      assert IsDigit(s[j - 1]);
      10 * DigitsValue(s, i, j - 1) + (s[j - 1] as int - ZERO as int)
  }

  /** The optional sign of a numeric conversion at i: whether it is a minus,
      and where the digits start. */
  function SignEnd(s: seq<byte>, i: nat): (j: nat)
    requires i <= |s|
    ensures i <= j <= |s| && j <= i + 1
  {
    if i < |s| && (s[i] == PLUS || s[i] == MINUS) then i + 1 else i
  }

  /** %d: optional white space, an optional sign and at least one decimal
      digit, as many as there are. */
  function ScanInt(s: seq<byte>, i: nat): (r: Option<Scanned<int>>)
    requires i <= |s|
    ensures r.Some? ==> i < r.value.next <= |s|
    ensures r.Some? ==> IsDigit(s[r.value.next - 1]) && (r.value.next == |s| || !IsDigit(s[r.value.next]))
  {
    var a := SkipSpace(s, i);
    var b := SignEnd(s, a);
    var e := DigitsEnd(s, b);
    if e == b then None
    else
      var magnitude := DigitsValue(s, b, e);
      var value: int := if b > a && s[a] == MINUS then -(magnitude as int) else magnitude;
      Some(Scanned(value, e))
  }

  /** %1d: optional white space and then exactly one character, which must be
      a digit (a sign would use up the field width). */
  function ScanDigit(s: seq<byte>, i: nat): (r: Option<Scanned<int>>)
    requires i <= |s|
    ensures r.Some? ==> 0 <= r.value.value <= 9 && i < r.value.next <= |s|
  {
    var a := SkipSpace(s, i);
    if a < |s| && IsDigit(s[a]) then Some(Scanned(s[a] - ZERO, a + 1)) else None
  }

  /** The end of the exponent of a %g field at i: i itself when no 'e' or
      'E' follows, the end of its digits when some do, and None when the
      letter has no digits after it. scanf has then read a prefix of a
      number that is not a number, which is a matching failure (section
      7.21.6.2, paragraph 10, of ISO/IEC 9899:2011). */
  function ExponentEnd(s: seq<byte>, i: nat): (r: Option<nat>)
    requires i <= |s|
    ensures r.Some? ==> i <= r.value <= |s|
    ensures r == Some(i) <==> i == |s| || (s[i] != 'e' as byte && s[i] != 'E' as byte)
    ensures r.None? ==> DigitsEnd(s, SignEnd(s, i + 1)) == SignEnd(s, i + 1)
  {
    if i < |s| && (s[i] == 'e' as byte || s[i] == 'E' as byte) then
      var b := SignEnd(s, i + 1);
      var e := DigitsEnd(s, b);
      if e > b then Some(e) else None
    else Some(i)
  }

  /** %g in decimal notation: optional white space, an optional sign, digits
      with an optional decimal point and at least one digit, and an optional
      exponent, which must have digits. The field is kept as its characters. */
  function ScanFloat(s: seq<byte>, i: nat): (r: Option<Scanned<seq<byte>>>)
    requires i <= |s|
    ensures r.Some? ==> i < r.value.next <= |s| && |r.value.value| > 0
  {
    var a := SkipSpace(s, i);
    var b := SignEnd(s, a);
    var e1 := DigitsEnd(s, b);
    var e2 := if e1 < |s| && s[e1] == DOT then DigitsEnd(s, e1 + 1) else e1;
    if e1 == b && e2 <= e1 + 1 then None
    else match ExponentEnd(s, e2)
      case None => None
      case Some(e) => Some(Scanned(s[a..e], e))
  }

  /** A %g field whose value is above 0: no minus sign and a non-zero digit
      before any exponent. */
  predicate PositiveField(f: seq<byte>)
  {
    && (|f| == 0 || f[0] != MINUS)
    && exists k :: 0 <= k < MantissaEnd(f, 0) && '1' as byte <= f[k] <= '9' as byte
  }

  function MantissaEnd(f: seq<byte>, i: nat): (j: nat)
    requires i <= |f|
    ensures i <= j <= |f|
    decreases |f| - i
  {
    if i == |f| || f[i] == 'e' as byte || f[i] == 'E' as byte then i else MantissaEnd(f, i + 1)
  }

  /** A run of %d conversions separated by whitespace directives, as in
      "%d %d %d\n": all n values, or None as soon as one fails. */
  function ScanInts(s: seq<byte>, i: nat, n: nat): (r: Option<Scanned<seq<int>>>)
    requires i <= |s|
    ensures r.Some? ==> |r.value.value| == n && i <= r.value.next <= |s|
    decreases n
  {
    if n == 0 then Some(Scanned([], i))
    else match ScanInt(s, i)
      case None => None
      case Some(x) =>
        match ScanInts(s, x.next, n - 1)
        case None => None
        case Some(rest) => Some(Scanned([x.value] + rest.value, rest.next))
  }

  /** A run of %g conversions separated by whitespace directives. */
  function ScanFloats(s: seq<byte>, i: nat, n: nat): (r: Option<Scanned<seq<seq<byte>>>>)
    requires i <= |s|
    ensures r.Some? ==> |r.value.value| == n && i <= r.value.next <= |s|
    decreases n
  {
    if n == 0 then Some(Scanned([], i))
    else match ScanFloat(s, i)
      case None => None
      case Some(x) =>
        match ScanFloats(s, x.next, n - 1)
        case None => None
        case Some(rest) => Some(Scanned([x.value] + rest.value, rest.next))
  }

  // ---------------------------------------------------------------------------
  // Properties of the conversions

  /** Decimal digits of a natural number, most significant first. */
  function Decimal(n: nat): (r: seq<byte>)
    ensures |r| > 0 && forall k :: 0 <= k < |r| ==> IsDigit(r[k])
  {
    if n < 10 then [ZERO + n] else Decimal(n / 10) + [ZERO + n % 10]
  }

  function Pow10(k: nat): (r: nat)
    ensures r >= 1
  {
    if k == 0 then 1 else 10 * Pow10(k - 1)
  }

  /** A number below 10^k has at most k decimal digits. */
  lemma {:induction false} DecimalBelow(n: nat, k: nat)
    requires 1 <= k && n < Pow10(k)
    ensures |Decimal(n)| <= k
    decreases k
  {
    if n >= 10 {
      assert n < 10 * Pow10(k - 1);
      assert k >= 2;
      DecimalBelow(n / 10, k - 1);
    }
  }

  /** %d at i reads back the decimal rendering of a number that follows white
      space from i to j, up to the first byte that is not a digit. */
  lemma ScanIntReadsDecimal(s: seq<byte>, i: nat, j: nat, n: nat)
    requires i <= j && j + |Decimal(n)| <= |s| && s[j..j + |Decimal(n)|] == Decimal(n)
    requires forall k :: i <= k < j ==> IsSpace(s[k])
    requires j + |Decimal(n)| == |s| || !IsDigit(s[j + |Decimal(n)|])
    ensures ScanInt(s, i) == Some(Scanned(n, j + |Decimal(n)|))
  {
    DigitsValueOf(s, j, n);
    ScanIntDigits(s, i, j, j + |Decimal(n)|);
  }

  /** %d at i over white space up to j and then the digits s[j..e] reads
      their value and stops at e. */
  lemma ScanIntDigits(s: seq<byte>, i: nat, j: nat, e: nat)
    requires i <= j < e <= |s|
    requires forall k :: i <= k < j ==> IsSpace(s[k])
    requires forall k :: j <= k < e ==> IsDigit(s[k])
    requires e == |s| || !IsDigit(s[e])
    ensures ScanInt(s, i) == Some(Scanned(DigitsValue(s, j, e), e))
  {
    SkipSpaceOver(s, i, j);
    assert SignEnd(s, j) == j;
    DigitsEndOver(s, j, e - j);
  }

  /** A run of n + 1 %d conversions is the first one followed by the other n. */
  lemma ScanIntsCons(s: seq<byte>, i: nat, n: nat, x: Scanned<int>, rest: Scanned<seq<int>>)
    requires i <= |s| && ScanInt(s, i) == Some(x) && x.next <= |s|
    requires ScanInts(s, x.next, n) == Some(rest)
    ensures ScanInts(s, i, n + 1) == Some(Scanned([x.value] + rest.value, rest.next))
  {
  }

  /** A run of n + 1 %g conversions is the first one followed by the other n. */
  lemma ScanFloatsCons(s: seq<byte>, i: nat, n: nat, x: Scanned<seq<byte>>, rest: Scanned<seq<seq<byte>>>)
    requires i <= |s| && ScanFloat(s, i) == Some(x) && x.next <= |s|
    requires ScanFloats(s, x.next, n) == Some(rest)
    ensures ScanFloats(s, i, n + 1) == Some(Scanned([x.value] + rest.value, rest.next))
  {
  }

  /** %g at i reads the decimal rendering of a number at j, after at most one
      white-space byte, as its characters, and stops at the space or newline
      after it. */
  lemma ScanFloatReadsDecimal(s: seq<byte>, i: nat, j: nat, n: nat)
    requires j + |Decimal(n)| < |s| && s[j..j + |Decimal(n)|] == Decimal(n)
    requires i == j || (i + 1 == j && IsSpace(s[i]))
    requires s[j + |Decimal(n)|] == SPACE || s[j + |Decimal(n)|] == NEWLINE
    ensures ScanFloat(s, i) == Some(Scanned(Decimal(n), j + |Decimal(n)|))
  {
    DigitsValueOf(s, j, n);
    ScanFloatDigits(s, i, j, j + |Decimal(n)|);
  }

  /** %g at i over at most one white-space byte up to j and then the digits
      s[j..e], followed by a space or a newline, reads those digits. */
  lemma ScanFloatDigits(s: seq<byte>, i: nat, j: nat, e: nat)
    requires i <= j < e < |s|
    requires i == j || (i + 1 == j && IsSpace(s[i]))
    requires forall k :: j <= k < e ==> IsDigit(s[k])
    requires s[e] == SPACE || s[e] == NEWLINE
    ensures ScanFloat(s, i) == Some(Scanned(s[j..e], e))
  {
    SkipSpaceOver(s, i, j);
    assert SignEnd(s, j) == j;
    DigitsEndOver(s, j, e - j);
    assert ExponentEnd(s, e) == Some(e);
  }

  /** %g at i over white space up to j, the digits s[j..e] and then an 'e'
      or 'E' with no digit after it (a sign alone is no digit) fails, as
      "3e" does in the scales line "1 1 3e\n". */
  lemma DanglingExponentFails(s: seq<byte>, i: nat, j: nat, e: nat)
    requires i <= j < e < |s|
    requires forall k :: i <= k < j ==> IsSpace(s[k])
    requires forall k :: j <= k < e ==> IsDigit(s[k])
    requires s[e] == 'e' as byte || s[e] == 'E' as byte
    requires e + 1 == |s| || (s[e + 1] != PLUS && s[e + 1] != MINUS && !IsDigit(s[e + 1]))
    ensures ScanFloat(s, i).None?
  {
    SkipSpaceOver(s, i, j);
    assert SignEnd(s, j) == j;
    DigitsEndOver(s, j, e - j);
    assert SignEnd(s, e + 1) == e + 1;
  }

  /** The leading digit of a positive number is not 0, so its decimal
      rendering is a positive %g field. */
  lemma {:induction false} DecimalPositive(n: nat)
    requires n >= 1
    ensures PositiveField(Decimal(n))
  {
    var f := Decimal(n);
    DecimalLead(n);
    assert f[0] != 'e' as byte && f[0] != 'E' as byte;
    assert MantissaEnd(f, 0) > 0;
    assert 0 < MantissaEnd(f, 0) && '1' as byte <= f[0] <= '9' as byte;
  }

  lemma {:induction false} DecimalLead(n: nat)
    requires n >= 1
    ensures ZERO + 1 <= Decimal(n)[0] <= ZERO + 9
  {
    if n >= 10 {
      DecimalLead(n / 10);
      assert Decimal(n)[0] == Decimal(n / 10)[0];
    }
  }

  /** strchr passes over one byte that is neither the byte it looks for nor NUL. */
  lemma StrChrHere(s: seq<byte>, i: nat, b: byte)
    requires i < |s| && b != 0 && s[i] == b
    ensures StrChr(s, i, b) == Some(i)
  {
  }

  lemma StrChrStep(s: seq<byte>, i: nat, b: byte)
    requires i < |s| && b != 0 && s[i] != b && s[i] != 0
    ensures StrChr(s, i, b) == StrChr(s, i + 1, b)
  {
  }

  /** strchr passes over bytes that are neither the byte it looks for nor NUL. */
  lemma {:induction false} StrChrSkip(s: seq<byte>, i: nat, j: nat, b: byte)
    requires i <= j <= |s| && b != 0
    requires forall k :: i <= k < j ==> s[k] != b && s[k] != 0
    ensures StrChr(s, i, b) == StrChr(s, j, b)
    decreases j - i
  {
    if i < j {
      StrChrSkip(s, i + 1, j, b);
    }
  }

  lemma {:induction false} SkipSpaceOver(s: seq<byte>, i: nat, j: nat)
    requires i <= j < |s| && !IsSpace(s[j])
    requires forall k :: i <= k < j ==> IsSpace(s[k])
    ensures SkipSpace(s, i) == j
    decreases j - i
  {
    if i < j {
      SkipSpaceOver(s, i + 1, j);
    }
  }

  lemma {:induction false} DigitsEndOver(s: seq<byte>, i: nat, n: nat)
    requires i + n <= |s| && (i + n == |s| || !IsDigit(s[i + n]))
    requires forall k :: i <= k < i + n ==> IsDigit(s[k])
    ensures DigitsEnd(s, i) == i + n
    decreases n
  {
    if n > 0 {
      DigitsEndOver(s, i + 1, n - 1);
    }
  }

  /** The digits of Decimal(n), wherever they sit in a buffer, are worth n. */
  lemma {:induction false} DigitsValueOf(s: seq<byte>, i: nat, n: nat)
    requires i + |Decimal(n)| <= |s| && s[i..i + |Decimal(n)|] == Decimal(n)
    ensures forall k :: i <= k < i + |Decimal(n)| ==> IsDigit(s[k])
    ensures DigitsValue(s, i, i + |Decimal(n)|) == n
  {
    var d := Decimal(n);
    forall k | i <= k < i + |d| ensures IsDigit(s[k]) {
      assert s[k] == d[k - i];
    }
    if n >= 10 {
      var h := Decimal(n / 10);
      assert d == h + [ZERO + n % 10];
      assert s[i..i + |h|] == h by {
        assert s[i..i + |h|] == s[i..i + |d|][..|h|];
      }
      DigitsValueOf(s, i, n / 10);
      assert s[i + |d| - 1] == d[|d| - 1];
    } else {
      assert s[i] == d[0];
    }
  }

  // ---------------------------------------------------------------------------
  // Pieces of a buffer

  /** s sits in d at j. */
  predicate At(d: seq<byte>, j: nat, s: seq<byte>)
  {
    j + |s| <= |d| && d[j..j + |s|] == s
  }

  predicate AllDigits(a: seq<byte>)
  {
    forall k :: 0 <= k < |a| ==> IsDigit(a[k])
  }

  lemma AtSplit(d: seq<byte>, j: nat, a: seq<byte>, b: seq<byte>)
    requires At(d, j, a + b)
    ensures At(d, j, a) && At(d, j + |a|, b)
  {
    assert d[j..j + |a|] == d[j..j + |a| + |b|][..|a|];
    assert d[j + |a|..j + |a| + |b|] == d[j..j + |a| + |b|][|a|..];
  }

  lemma AtByte(d: seq<byte>, j: nat, x: byte)
    requires At(d, j, [x])
    ensures j < |d| && d[j] == x
  {
    assert d[j..j + 1][0] == d[j];
  }

  /** A piece, a separator byte and the rest at j. */
  lemma SplitAfter(d: seq<byte>, j: nat, x: seq<byte>, sep: byte, rest: seq<byte>)
    requires At(d, j, x + ([sep] + rest))
    ensures At(d, j, x) && j + |x| < |d| && d[j + |x|] == sep && At(d, j + |x| + 1, rest)
  {
    AtSplit(d, j, x, [sep] + rest);
    AtSplit(d, j + |x|, [sep], rest);
    AtByte(d, j + |x|, sep);
  }
}
