/** The DDS differential stream decoder (Formats/DDSLoader.cpp:126-130, 198-257):
    a 2-bit skip and a 16-bit strip, then runs of deltas, each run a 7-bit
    length and a 3-bit width code; the deltas are summed modulo 256 with a
    predictor that looks strip bytes back, and the bytes are finally
    re-interleaved. */
module DdsDecode {
  import opened Machine
  import opened DdsBits
  import opened DdsInterleave

  /** DDS_RL: the width of a run-length field. */
  const RunLengthBits: nat := 7

  /** Where the first run starts: after the 2-bit skip and the 16-bit strip. */
  const HeaderBits: nat := 18

  // ---------------------------------------------------------------------------
  // Width codes: DDS_code and DDS_decode(int)

  /** DDS_code: widths above 1 are stored one lower. */
  function CodeWidth(bits: int): int
  {
    if bits > 1 then bits - 1 else bits
  }

  /** DDS_decode(int): codes from 1 up are read back one higher. */
  function DecodeWidth(code: int): (bits: int)
    ensures bits != 1
    ensures 0 <= code ==> 0 <= bits
    ensures 0 <= code < 8 ==> bits == 0 || 2 <= bits <= 8
  {
    if code >= 1 then code + 1 else code
  }

  /** Every width except 1 survives coding and decoding. */
  lemma WidthRoundTrip(bits: int)
    requires bits != 1
    ensures DecodeWidth(CodeWidth(bits)) == bits
  {
  }

  /** Width 1 is not representable: it comes back as 2. */
  lemma WidthOneWidens()
    ensures DecodeWidth(CodeWidth(1)) == 2
  {
  }

  /** Coding undoes decoding for every code. */
  lemma CodeRoundTrip(code: int)
    ensures CodeWidth(DecodeWidth(code)) == code
  {
  }

  // ---------------------------------------------------------------------------
  // The deltas of the stream

  /** One delta: the value read and the width it was read with. */
  datatype Delta = Delta(value: nat, width: nat)

  /** The bits left in the payload from position pos on. */
  function Left(p: seq<byte>, pos: nat): nat
  {
    if pos < 8 * |p| then 8 * |p| - pos else 0
  }

  /** The first n deltas of a run of `bits`-bit deltas starting at pos. */
  function Run(p: seq<byte>, pos: nat, bits: nat, n: nat): (r: seq<Delta>)
    ensures |r| == n
  {
    if n == 0 then [] else Run(p, pos, bits, n - 1) + [Delta(BitsValue(p, pos + Span(n - 1, bits), bits), bits)]
  }

  /** The width of the run whose length field starts at pos. */
  function RunWidth(p: seq<byte>, pos: nat): (bits: nat)
    ensures bits <= 8
  {
    BitsBound(p, pos + RunLengthBits, 3);
    assert Pow2(3) == 8;
    DecodeWidth(BitsValue(p, pos + RunLengthBits, 3))
  }

  /** Where the run whose length field starts at pos ends. */
  function RunEnd(p: seq<byte>, pos: nat): nat
  {
    pos + RunLengthBits + 3 + Span(BitsValue(p, pos, RunLengthBits), RunWidth(p, pos))
  }

  /** All deltas of the runs from pos on, up to the first run of length 0. */
  function Runs(p: seq<byte>, pos: nat): seq<Delta>
    decreases Left(p, pos)
  {
    var n := BitsValue(p, pos, RunLengthBits);
    if n == 0 then []
    else
      NonZeroInside(p, pos, RunLengthBits);
      Run(p, pos + RunLengthBits + 3, RunWidth(p, pos), n) + Runs(p, RunEnd(p, pos))
  }

  /** The lengths of the runs from pos on, up to the first run of length 0. */
  function RunLengths(p: seq<byte>, pos: nat): seq<nat>
    decreases Left(p, pos)
  {
    var n := BitsValue(p, pos, RunLengthBits);
    if n == 0 then []
    else
      NonZeroInside(p, pos, RunLengthBits);
      [n] + RunLengths(p, RunEnd(p, pos))
  }

  function Sum(s: seq<nat>): nat
  {
    if s == [] then 0 else s[0] + Sum(s[1..])
  }

  /** The stream holds exactly as many deltas as its run lengths add up to. */
  lemma {:induction false} RunsLength(p: seq<byte>, pos: nat)
    ensures |Runs(p, pos)| == Sum(RunLengths(p, pos))
    decreases Left(p, pos)
  {
    var n := BitsValue(p, pos, RunLengthBits);
    if n != 0 {
      NonZeroInside(p, pos, RunLengthBits);
      RunsLength(p, RunEnd(p, pos));
      assert RunLengths(p, pos)[1..] == RunLengths(p, RunEnd(p, pos));
    }
  }

  // ---------------------------------------------------------------------------
  // Rebuilding the bytes

  /** act before the next byte: the last byte written, 0 before the first. */
  function Prev(out: seq<byte>): byte
  {
    if |out| == 0 then 0 else out[|out| - 1]
  }

  /** The strip-back predictor: the step between the bytes strip and strip + 1
      positions back, once there are more than strip bytes and strip is not 1. */
  function Predictor(out: seq<byte>, strip: nat): int
    requires 1 <= strip
  {
    if strip == 1 || |out| <= strip then 0 else (out[|out| - strip] as int) - out[|out| - strip - 1]
  }

  /** The byte a delta adds after `out`. */
  function NextByte(out: seq<byte>, strip: nat, d: Delta): byte
    requires 1 <= strip
  {
    (Prev(out) + Predictor(out, strip) + d.value - Pow2(d.width) / 2) % 256
  }

  /** The bytes the deltas rebuild, one per delta. */
  function Rebuild(ds: seq<Delta>, strip: nat): (out: seq<byte>)
    requires 1 <= strip
    ensures |out| == |ds|
  {
    if ds == [] then [] else
      var o := Rebuild(ds[..|ds| - 1], strip);
      o + [NextByte(o, strip, ds[|ds| - 1])]
  }

  lemma RebuildSnoc(ds: seq<Delta>, d: Delta, strip: nat)
    requires 1 <= strip
    ensures Rebuild(ds + [d], strip) == Rebuild(ds, strip) + [NextByte(Rebuild(ds, strip), strip, d)]
  {
    assert (ds + [d])[..|ds|] == ds;
  }

  /** Rebuilding a prefix of the deltas gives the prefix of the bytes. */
  lemma {:induction false} RebuildPrefix(ds: seq<Delta>, strip: nat, i: nat)
    requires 1 <= strip && i <= |ds|
    ensures Rebuild(ds, strip)[..i] == Rebuild(ds[..i], strip)
    decreases |ds|
  {
    if i < |ds| {
      RebuildPrefix(ds[..|ds| - 1], strip, i);
      assert ds[..|ds| - 1][..i] == ds[..i];
    } else {
      assert ds[..i] == ds;
    }
  }

  /** The recurrence of the decoder: byte i is the previous byte (0 before the
      first) plus the delta minus half its range, plus, once i > strip and
      strip is not 1, the step between bytes i - strip and i - strip - 1, all
      modulo 256. The predictor reads only bytes already written. */
  lemma RebuildAt(ds: seq<Delta>, strip: nat, i: nat)
    requires 1 <= strip && i < |ds|
    ensures var out := Rebuild(ds, strip);
      var pred: int := if strip != 1 && i > strip then (out[i - strip] as int) - out[i - strip - 1] else 0;
      out[i] == ((if i == 0 then 0 else out[i - 1]) + pred + ds[i].value - Pow2(ds[i].width) / 2) % 256
  {
    RebuildLast(ds, strip, i);
    NextByteAt(Rebuild(ds, strip), strip, i, ds[i]);
  }

  /** Byte i is the byte delta i adds after the bytes before it. */
  lemma RebuildLast(ds: seq<Delta>, strip: nat, i: nat)
    requires 1 <= strip && i < |ds|
    ensures Rebuild(ds, strip)[i] == NextByte(Rebuild(ds, strip)[..i], strip, ds[i])
  {
    var out := Rebuild(ds, strip);
    RebuildPrefix(ds, strip, i + 1);
    RebuildPrefix(ds, strip, i);
    assert ds[..i + 1][..i] == ds[..i];
    assert out[..i + 1] == out[..i] + [NextByte(out[..i], strip, ds[i])];
    assert out[i] == out[..i + 1][i];
  }

  /** NextByte after the first i bytes, written with indices into the bytes. */
  lemma NextByteAt(out: seq<byte>, strip: nat, i: nat, d: Delta)
    requires 1 <= strip && i < |out|
    ensures var pred: int := if strip != 1 && i > strip then (out[i - strip] as int) - out[i - strip - 1] else 0;
      NextByte(out[..i], strip, d) == ((if i == 0 then 0 else out[i - 1]) + pred + d.value - Pow2(d.width) / 2) % 256
  {
    var o := out[..i];
    assert i > 0 ==> Prev(o) == out[i - 1];
    assert strip != 1 && i > strip ==> Predictor(o, strip) == (out[i - strip] as int) - out[i - strip - 1];
  }

  // ---------------------------------------------------------------------------
  // The decoded stream

  /** skip and strip as the header stores them, one less than their values. */
  function Skip(p: seq<byte>): (skip: nat)
    ensures 1 <= skip <= 4
  {
    BitsBound(p, 0, 2);
    assert Pow2(2) == 4;
    BitsValue(p, 0, 2) + 1
  }

  function Strip(p: seq<byte>): (strip: nat)
    ensures 1 <= strip <= 0x1_0000
  {
    BitsBound(p, 2, 16);
    Pow2Word();
    BitsValue(p, 2, 16) + 1
  }

  /** DDS_decode(chunk, size, &data, &bytes, block) as a function of the payload. */
  function Decoded(p: seq<byte>, block: nat): (r: seq<byte>)
  {
    Shuffled(Rebuild(Runs(p, HeaderBits), Strip(p)), Skip(p), block, true)
  }

  /** The decoded length is the sum of the run lengths before the first zero run. */
  lemma DecodedLength(p: seq<byte>, block: nat)
    ensures |Decoded(p, block)| == Sum(RunLengths(p, HeaderBits))
  {
    RunsLength(p, HeaderBits);
  }

  /** Decoding with block b and then de-interleaving with the same skip and b
      yields the rebuilt bytes in stream order. */
  lemma DecodedDeinterleaves(p: seq<byte>, block: nat)
    ensures Shuffled(Decoded(p, block), Skip(p), block, false) == Rebuild(Runs(p, HeaderBits), Strip(p))
  {
    ShuffledUndoes(Rebuild(Runs(p, HeaderBits), Strip(p)), Skip(p), block, true);
  }

  /** One run taken off the front of the runs from pos: the bytes it adds and
      the runs after it make up the same stream, and fewer bits remain. */
  lemma RunsAdvance(p: seq<byte>, pos: nat, ds: seq<Delta>)
    requires BitsValue(p, pos, RunLengthBits) != 0
    ensures (ds + Run(p, pos + RunLengthBits + 3, RunWidth(p, pos), BitsValue(p, pos, RunLengthBits)))
            + Runs(p, RunEnd(p, pos)) == ds + Runs(p, pos)
    ensures Left(p, RunEnd(p, pos)) < Left(p, pos)
  {
    NonZeroInside(p, pos, RunLengthBits);
  }

  /** A run length of 0 ends the stream. */
  lemma RunsDone(p: seq<byte>, pos: nat, ds: seq<Delta>)
    requires BitsValue(p, pos, RunLengthBits) == 0
    ensures ds + Runs(p, pos) == ds
  {
  }

  lemma Append<T>(a: seq<T>, b: seq<T>, c: seq<T>)
    ensures a + (b + c) == (a + b) + c
  {
  }

  /** One more byte rebuilt from one more delta. */
  lemma RebuildStep(done: seq<Delta>, d: Delta, strip: nat, r: seq<byte>, next: byte)
    requires 1 <= strip && r == Rebuild(done, strip) && next == NextByte(r, strip, d)
    ensures r + [next] == Rebuild(done + [d], strip)
  {
    RebuildSnoc(done, d, strip);
  }

  /** One more delta of a run appended to the deltas read so far. */
  lemma RunGrows(ds: seq<Delta>, p: seq<byte>, start: nat, bits: nat, j: nat, done: seq<Delta>)
    requires done == ds + Run(p, start, bits, j)
    ensures done + [Delta(BitsValue(p, start + Span(j, bits), bits), bits)] == ds + Run(p, start, bits, j + 1)
  {
    var d := Delta(BitsValue(p, start + Span(j, bits), bits), bits);
    var head := Run(p, start, bits, j);
    assert Run(p, start, bits, j + 1) == head + [d];
    Append(ds, head, [d]);
  }

  // ---------------------------------------------------------------------------
  // The decoder

  /** The wrap of act into 0..255 by repeated additions or subtractions of 256. */
  method WrapByte(x: int) returns (act: byte)
    ensures act == x % 256
  {
    var a := x;
    while a < 0
      invariant a % 256 == x % 256
      decreases -a
    {
      a := a + 256;
    }
    while a > 255
      invariant a >= 0 && a % 256 == x % 256
      decreases a
    {
      a := a - 256;
    }
    act := a;
  }

  /** One delta of the inner loop of DDS_decode: the next byte after `out`. */
  method NextValue(c: BitCursor, bits: nat, strip: nat, out: seq<byte>, act: byte, ghost p: seq<byte>, ghost at: nat)
    returns (next: byte)
    requires c.Valid() && c.payload == p && c.consumed == at
    requires bits <= 8 && 1 <= strip && act == Prev(out)
    modifies c
    ensures c.Valid() && c.payload == p && c.consumed == at + bits
    ensures next == NextByte(out, strip, Delta(BitsValue(p, at, bits), bits))
  {
    var d := c.ReadBits(bits);
    var half := Pow2(bits) / 2;
    var sum: int;
    if strip == 1 || |out| <= strip {
      sum := act + d - half;
    } else {
      sum := act + out[|out| - strip] - out[|out| - strip - 1] + d - half;
    }
    next := WrapByte(sum);
  }

  /** The inner loop of DDS_decode: n deltas of width bits appended to `out`. */
  method ReadRun(c: BitCursor, n: nat, bits: nat, strip: nat, out: seq<byte>, act: byte, ghost ds: seq<Delta>)
    returns (r: seq<byte>, last: byte)
    requires c.Valid() && bits <= 8 && 1 <= strip && out == Rebuild(ds, strip) && act == Prev(out)
    modifies c
    ensures c.Valid() && c.payload == old(c.payload) && c.consumed == old(c.consumed) + Span(n, bits)
    ensures r == Rebuild(ds + Run(c.payload, old(c.consumed), bits, n), strip) && last == Prev(r)
  {
    ghost var p, start := c.payload, c.consumed;
    r, last := out, act;
    var j := 0;
    ghost var done, at := ds, start;
    assert ds + Run(p, start, bits, 0) == ds;
    while j < n
      invariant j <= n && at == start + Span(j, bits) && done == ds + Run(p, start, bits, j)
      invariant c.Valid() && c.payload == p && c.consumed == at
      invariant r == Rebuild(done, strip) && last == Prev(r)
    {
      ghost var d := Delta(BitsValue(p, at, bits), bits);
      var next := NextValue(c, bits, strip, r, last, p, at);
      RebuildStep(done, d, strip, r, next);
      RunGrows(ds, p, start, bits, j, done);
      r, last, done, at := r + [next], next, done + [d], at + bits;
      j := j + 1;
    }
  }

  /** One pass of the run loop of DDS_decode, after a non-zero run length n
      read at bit `at`: the 3-bit width code and the n deltas. */
  method NextRun(c: BitCursor, n: nat, strip: nat, out: seq<byte>, act: byte, ghost ds: seq<Delta>, ghost at: nat)
    returns (r: seq<byte>, last: byte)
    requires c.Valid() && 1 <= strip && out == Rebuild(ds, strip) && act == Prev(out)
    requires c.consumed == at + RunLengthBits && n == BitsValue(c.payload, at, RunLengthBits)
    modifies c
    ensures c.Valid() && c.payload == old(c.payload) && c.consumed == RunEnd(c.payload, at)
    ensures r == Rebuild(ds + Run(c.payload, at + RunLengthBits + 3, RunWidth(c.payload, at), n), strip)
    ensures last == Prev(r)
  {
    var code := c.ReadBits(3);
    var bits := DecodeWidth(code);
    assert bits == RunWidth(c.payload, at);
    r, last := ReadRun(c, n, bits, strip, out, act, ds);
  }

  /** The run loop of DDS_decode: read run lengths until a 0, each followed by
      a width code and that many deltas. */
  method ReadRuns(c: BitCursor, strip: nat) returns (out: seq<byte>)
    requires c.Valid() && 1 <= strip && c.consumed == HeaderBits
    modifies c
    ensures c.payload == old(c.payload)
    ensures out == Rebuild(Runs(c.payload, HeaderBits), strip)
  {
    ghost var p := c.payload;
    ghost var ds: seq<Delta> := [];
    ghost var at: nat := c.consumed;
    out := [];
    var act: byte := 0;
    var n := c.ReadBits(RunLengthBits);
    while n != 0
      invariant c.Valid() && c.payload == p && c.consumed == at + RunLengthBits
      invariant n == BitsValue(p, at, RunLengthBits)
      invariant ds + Runs(p, at) == Runs(p, HeaderBits)
      invariant out == Rebuild(ds, strip) && act == Prev(out)
      decreases Left(p, at)
    {
      out, act := NextRun(c, n, strip, out, act, ds, at);
      RunsAdvance(p, at, ds);
      ds, at := ds + Run(p, at + RunLengthBits + 3, RunWidth(p, at), n), RunEnd(p, at);
      n := c.ReadBits(RunLengthBits);
    }
    RunsDone(p, at, ds);
  }

  /** The first two reads of DDS_decode: skip and strip, each one more than
      the field stored. */
  method ReadHeader(c: BitCursor) returns (skip: nat, strip: nat)
    requires c.Valid() && c.consumed == 0
    modifies c
    ensures c.Valid() && c.payload == old(c.payload) && c.consumed == HeaderBits
    ensures skip == Skip(c.payload) && strip == Strip(c.payload)
  {
    var s := c.ReadBits(2);
    var t := c.ReadBits(16);
    skip, strip := (s as nat) + 1, (t as nat) + 1;
  }

  /** The closing DDS_interleave of DDS_decode, on a fresh buffer holding `out`. */
  method Reinterleave(out: seq<byte>, skip: nat, block: nat) returns (data: seq<byte>)
    requires skip <= 4 && 4 * block < WORD
    ensures data == Shuffled(out, skip, block, true)
  {
    var a := new byte[|out|](i requires 0 <= i < |out| => out[i]);
    assert a[..] == out;
    MulLe(skip, 4, block);
    Interleave(a, skip, block);
    data := a[..];
  }

  /** DDS_decode(chunk, size, &data, &bytes, block): the header, the runs, and
      the final DDS_interleave of the rebuilt bytes. */
  method Decode(chunk: seq<byte>, block: nat) returns (data: seq<byte>)
    requires 4 * block < WORD
    ensures data == Decoded(chunk, block)
  {
    var c := new BitCursor(chunk);
    var skip, strip := ReadHeader(c);
    assert c.payload == chunk && skip == Skip(chunk) && strip == Strip(chunk);
    var out := ReadRuns(c, strip);
    assert out == Rebuild(Runs(chunk, HeaderBits), Strip(chunk));
    data := Reinterleave(out, skip, block);
  }
}
