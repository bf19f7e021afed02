/** The Qt value helpers the widgets and the volume use: qBound on ints, and
    the QRgb packing of qRgb/qRgba with the channel readers qRed, qGreen,
    qBlue and qAlpha. A QRgb is a 32-bit unsigned 0xAARRGGBB. */
module QtValues {
  import opened Machine

  /** qBound(lo, v, hi) = qMax(lo, qMin(v, hi)): v moved into [lo, hi]; when
      hi < lo the lower bound wins. */
  function Bound(lo: int, v: int, hi: int): (r: int)
    ensures lo <= hi ==> lo <= r <= hi
    ensures hi < lo ==> r == lo
    ensures lo <= v <= hi ==> r == v
    ensures v < lo ==> r == lo
    ensures lo <= hi < v ==> r == hi
  {
    var m := if v < hi then v else hi;
    if lo < m then m else lo
  }

  /** Bound never reverses the order of two values. */
  lemma BoundMonotone(lo: int, u: int, v: int, hi: int)
    requires u <= v
    ensures Bound(lo, u, hi) <= Bound(lo, v, hi)
  {
  }

  /** Moving v up by one moves Bound(lo, v, hi) up by at most one, so the
      bounded values of a run of integers leave no gap. */
  lemma BoundStep(lo: int, v: int, hi: int)
    ensures Bound(lo, v, hi) <= Bound(lo, v + 1, hi) <= Bound(lo, v, hi) + 1
  {
  }

  /** qCeil(bits / 8.): the bytes needed for bits bits, rounded up (also for
      a negative int, where the ceiling goes toward zero). */
  function CeilDiv8(bits: int): (n: int)
    ensures 8 * n >= bits && 8 * (n - 1) < bits
  {
    -((-bits) / 8)
  }

  /** x & 0xff on a two's-complement int. */
  function Low8(x: int): (r: byte)
    ensures (x - r) % 256 == 0
  {
    x % 256
  }

  /** qRgba(r, g, b, a): ((a & 0xff) << 24) | ((r & 0xff) << 16) | ((g & 0xff) << 8) | (b & 0xff). */
  function Rgba(r: int, g: int, b: int, a: int): (c: u32)
  {
    Low8(a) * 0x100_0000 + Low8(r) * 0x1_0000 + Low8(g) * 0x100 + Low8(b)
  }

  /** qRgb(r, g, b): an opaque colour, alpha 0xff. */
  function Rgb(r: int, g: int, b: int): (c: u32)
    ensures c == Rgba(r, g, b, 255)
  {
    0xff00_0000 + Low8(r) * 0x1_0000 + Low8(g) * 0x100 + Low8(b)
  }

  /** qAlpha(c) = c >> 24. */
  function Alpha(c: u32): (a: byte)
  {
    c / 0x100_0000
  }

  /** qRed(c) = (c >> 16) & 0xff. */
  function Red(c: u32): (r: byte)
  {
    (c / 0x1_0000) % 256
  }

  /** qGreen(c) = (c >> 8) & 0xff. */
  function Green(c: u32): (g: byte)
  {
    (c / 0x100) % 256
  }

  /** qBlue(c) = c & 0xff. */
  function Blue(c: u32): (b: byte)
  {
    c % 256
  }

  /** The channel readers take back what qRgba packed, each channel reduced
      to its low 8 bits. */
  lemma RgbaChannels(r: int, g: int, b: int, a: int)
    ensures var c := Rgba(r, g, b, a);
      Alpha(c) == Low8(a) && Red(c) == Low8(r) && Green(c) == Low8(g) && Blue(c) == Low8(b)
  {
    Unpack(Low8(a), Low8(r), Low8(g), Low8(b));
  }

  /** A colour is determined by its four channels: repacking them gives it back. */
  lemma RgbaOfChannels(c: u32)
    ensures Rgba(Red(c), Green(c), Blue(c), Alpha(c)) == c
  {
    var x: int := c;
    var q1: int, r1: int := x / 256, x % 256;
    var q2: int, r2: int := q1 / 256, q1 % 256;
    var q3: int, r3: int := q2 / 256, q2 % 256;
    assert x == ((q3 * 256 + r3) * 256 + r2) * 256 + r1;
    DivDiv(x, 256, 256);
    DivDiv(x, 0x1_0000, 256);
  }

  /** Four bytes packed big-end first are read back by the four channel readers. */
  lemma Unpack(a: byte, r: byte, g: byte, b: byte)
    ensures var c: int := a * 0x100_0000 + r * 0x1_0000 + g * 0x100 + b;
      c / 0x100_0000 == a && (c / 0x1_0000) % 256 == r && (c / 0x100) % 256 == g && c % 256 == b
  {
    var c: int := a * 0x100_0000 + r * 0x1_0000 + g * 0x100 + b;
    var ar: int := a * 256 + r;
    var arg: int := ar * 256 + g;
    DivModUnique(c, 256, arg, b);
    DivModUnique(c, 0x100, arg, b);
    DivModUnique(arg, 256, ar, g);
    DivModUnique(c, 0x1_0000, ar, g * 0x100 + b);
    DivModUnique(ar, 256, a, r);
    DivModUnique(c, 0x100_0000, a, r * 0x1_0000 + g * 0x100 + b);
  }

  // ---------------------------------------------------------------------------
  // The running minimum and maximum

  /** min = qMin(min, v) over s in order, from init. */
  function RunMin(s: seq<nat>, init: nat): (m: nat)
  {
    if |s| == 0 then init else Min(RunMin(s[..|s| - 1], init), s[|s| - 1])
  }

  /** max = qMax(max, v) over s in order, from init. */
  function RunMax(s: seq<nat>, init: nat): (m: nat)
  {
    if |s| == 0 then init else Max(RunMax(s[..|s| - 1], init), s[|s| - 1])
  }

  /** qMin(a, b) = (a < b) ? a : b. */
  function Min(a: nat, b: nat): (m: nat)
    ensures m <= a && m <= b && (m == a || m == b)
  {
    if a < b then a else b
  }

  /** qMax(a, b) = (a < b) ? b : a. */
  function Max(a: nat, b: nat): (m: nat)
    ensures m >= a && m >= b && (m == a || m == b)
  {
    if a < b then b else a
  }

  /** One more sample: the running values after s[..i + 1] take s[i] in. */
  lemma RunStep(s: seq<nat>, i: nat, min0: nat, max0: nat)
    requires i < |s|
    ensures RunMin(s[..i + 1], min0) == Min(RunMin(s[..i], min0), s[i])
    ensures RunMax(s[..i + 1], max0) == Max(RunMax(s[..i], max0), s[i])
  {
    assert s[..i + 1][..i] == s[..i];
  }

  /** The running minimum is below the start and every sample, and is the
      start or one of the samples. */
  lemma {:induction false} RunMinIsMinimum(s: seq<nat>, init: nat)
    ensures RunMin(s, init) <= init
    ensures forall i :: 0 <= i < |s| ==> RunMin(s, init) <= s[i]
    ensures RunMin(s, init) == init || RunMin(s, init) in s
  {
    if |s| > 0 {
      var t := s[..|s| - 1];
      RunMinIsMinimum(t, init);
      assert forall i :: 0 <= i < |t| ==> t[i] == s[i];
    }
  }

  /** The running maximum is above the start and every sample, and is the
      start or one of the samples. */
  lemma {:induction false} RunMaxIsMaximum(s: seq<nat>, init: nat)
    ensures RunMax(s, init) >= init
    ensures forall i :: 0 <= i < |s| ==> RunMax(s, init) >= s[i]
    ensures RunMax(s, init) == init || RunMax(s, init) in s
  {
    if |s| > 0 {
      var t := s[..|s| - 1];
      RunMaxIsMaximum(t, init);
      assert forall i :: 0 <= i < |t| ==> t[i] == s[i];
    }
  }
}
