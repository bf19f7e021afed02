/** The Loader base class (Formats/Loader.h, Formats/Loader.cpp): the stored
    shape, the linearize flag, the min/max scan and the loop of normalizeData
    that reads each raw sample and stores the value computed from it. */
module Loading {
  import opened Machine
  import opened QtValues

  /** Loader::ByteOrder. */
  datatype ByteOrder = LittleEndian | BigEndian

  /** The enumerator values: BO_LITTLE_ENDIAN = 0, BO_BIG_ENDIAN = 1. */
  function ByteOrderCode(order: ByteOrder): (code: nat)
    ensures code < 2 && (code == 1 <==> order == BigEndian)
  {
    match order
    case LittleEndian => 0
    case BigEndian => 1
  }

  /** The 16-bit value of bytes hi, lo, high byte first. */
  function BigEndian16(data: seq<byte>, at: nat): (v: nat)
    requires at + 2 <= |data|
    ensures v < 0x1_0000 && v / 256 == data[at] && v % 256 == data[at + 1]
  {
    data[at] as int * 256 + data[at + 1] as int
  }

  /** The 16-bit value of the two bytes at at, as a uint16_t load on the
      little-endian hosts the program runs on. */
  function Native16(data: seq<byte>, at: nat): (v: nat)
    requires at + 2 <= |data|
    ensures v < 0x1_0000 && v % 256 == data[at] && v / 256 == data[at + 1]
  {
    data[at] as int + 256 * data[at + 1] as int
  }

  /** Whether the data holds n samples as findMinMax reads them. */
  predicate ScanFits(data: seq<byte>, bytesPerValue: nat, n: nat)
  {
    if bytesPerValue == 2 then 2 * n <= |data| else n <= |data|
  }

  /** Sample i as findMinMax reads it: big-endian when bytesPerValue is 2,
      the single byte data[i] otherwise. */
  function ScanSample(data: seq<byte>, bytesPerValue: nat, i: nat): (v: nat)
    requires i < |data| && (bytesPerValue == 2 ==> 2 * i + 2 <= |data|)
    ensures bytesPerValue != 2 ==> v == data[i]
  {
    if bytesPerValue == 2 then BigEndian16(data, 2 * i) else data[i]
  }

  /** Whether the data holds n samples as the loop of normalizeData reads them. */
  predicate CopyFits(data: seq<byte>, bytesPerValue: nat, n: nat)
  {
    if bytesPerValue == 1 then n <= |data| else 2 * n <= |data|
  }

  /** Sample i as the loop of normalizeData reads it: the byte data[i] when
      bytesPerValue is 1, else a 16-bit value, big-endian under
      BO_BIG_ENDIAN and a native load otherwise. */
  function CopySample(data: seq<byte>, order: ByteOrder, bytesPerValue: nat, i: nat): (v: nat)
    requires bytesPerValue == 1 ==> i < |data|
    requires bytesPerValue != 1 ==> 2 * i + 2 <= |data|
    ensures v < 0x1_0000
  {
    if bytesPerValue == 1 then data[i]
    else if order == BigEndian then BigEndian16(data, 2 * i)
    else Native16(data, 2 * i)
  }

  /** The samples 0 .. n - 1 as findMinMax reads them. */
  function ScanSamples(data: seq<byte>, bytesPerValue: nat, n: nat): (s: seq<nat>)
    requires ScanFits(data, bytesPerValue, n)
    ensures |s| == n && forall i :: 0 <= i < n ==> s[i] == ScanSample(data, bytesPerValue, i)
  {
    seq(n, i requires 0 <= i < n && ScanFits(data, bytesPerValue, n) => ScanSample(data, bytesPerValue, i))
  }

  /** The samples 0 .. n - 1 as normalizeData reads them. */
  function CopySamples(data: seq<byte>, order: ByteOrder, bytesPerValue: nat, n: nat): (s: seq<nat>)
    requires CopyFits(data, bytesPerValue, n)
    ensures |s| == n && forall i :: 0 <= i < n ==> s[i] == CopySample(data, order, bytesPerValue, i)
  {
    seq(n, i requires 0 <= i < n && CopyFits(data, bytesPerValue, n) => CopySample(data, order, bytesPerValue, i))
  }

  /** What `dst[i] = val` or `((uint16_t*)dst)[i] = val` leaves in byte k of
      dst: the low byte of val, and for 16-bit entries the next byte above
      it, in the host's little-endian order. */
  predicate Stored(dst: seq<byte>, dstBytesPerVal: nat, i: nat, val: nat)
  {
    if dstBytesPerVal == 1 then i < |dst| && dst[i] == val % 256
    else 2 * i + 1 < |dst| && dst[2 * i] == val % 256 && dst[2 * i + 1] == (val / 256) % 256
  }

  /** The number of dst bytes n values occupy. */
  function DstBytes(dstBytesPerVal: nat, n: nat): nat
  {
    if dstBytesPerVal == 1 then n else 2 * n
  }

  /** The loop count of `for (int i = 0; i < voxelCount; i++)`. */
  function Count(voxelCount: int): nat
  {
    if voxelCount < 0 then 0 else voxelCount
  }

  /** Whether the loop of normalizeData assigns val before storing it:
      under linearize, or when 16-bit samples become 8-bit entries. In every
      other call val is read without ever having been assigned. */
  predicate ValueAssigned(linearize: bool, bytesPerValue: int, dstBytesPerVal: int)
  {
    linearize || (bytesPerValue == 2 && dstBytesPerVal == 1)
  }

  class Loader {
    var width: u32
    var height: u32
    var depth: u32
    var linearize: bool
    var bitDepth: u32

    /** A fresh Loader: no dimensions yet, linearize on. The bit depth is set
        by the subclass before use. */
    constructor()
      ensures width == 0 && height == 0 && depth == 0 && linearize
    {
      width, height, depth := 0, 0, 0;
      linearize := true;
      bitDepth := 0;
    }

    /** getDimensions: the stored shape and the whole bytes one value of
        bitDepth bits occupies. */
    method GetDimensions() returns (w: u32, h: u32, d: u32, bytesPerVal: int)
      ensures w == width && h == height && d == depth
      ensures 8 * bytesPerVal >= bitDepth && 8 * (bytesPerVal - 1) < bitDepth
    {
      w, h, d := width, height, depth;
      bytesPerVal := CeilDiv8(bitDepth);
    }

    /** setLinearize: the flag changes, nothing else does, and the same
        loader is handed back for chaining. */
    method SetLinearize(flag: bool) returns (self: Loader)
      modifies this
      ensures self == this && linearize == flag
      ensures width == old(width) && height == old(height) && depth == old(depth)
      ensures bitDepth == old(bitDepth)
    {
      linearize := flag;
      self := this;
    }

    /** findMinMax(voxelCount, bytesPerValue, data, min, max): the running
        qMin/qMax of the samples as ScanSample reads them. */
    method FindMinMax(voxelCount: int, bytesPerValue: u32, data: array<byte>, min0: u32, max0: u32)
      returns (min: u32, max: u32)
      requires ScanFits(data[..], bytesPerValue, Count(voxelCount))
      ensures min == RunMin(ScanSamples(data[..], bytesPerValue, Count(voxelCount)), min0)
      ensures max == RunMax(ScanSamples(data[..], bytesPerValue, Count(voxelCount)), max0)
    {
      var n := Count(voxelCount);
      ghost var s := ScanSamples(data[..], bytesPerValue, n);
      min, max := min0, max0;
      var i := 0;
      while i < voxelCount
        invariant 0 <= i <= n
        invariant min == RunMin(s[..i], min0) && max == RunMax(s[..i], max0)
      {
        var raw: nat;
        if bytesPerValue == 2 {
          raw := data[i * 2] as int * 256 + data[i * 2 + 1] as int;
        } else {
          raw := data[i];
        }
        assert raw == s[i];
        RunStep(s, i, min0, max0);
        min, max := Min(min, raw), Max(max, raw);
        i := i + 1;
      }
      assert s[..i] == s;
    }

    /** The loop of normalizeData: each sample is read, its value computed
        and stored in dst; dst past the written entries keeps its bytes. */
    method StoreValues(voxelCount: int, order: ByteOrder, bytesPerValue: nat, dstBytesPerVal: u32,
                       data: array<byte>, dst: array<byte>, min: u32, max: u32, rangeMax: nat,
                       scale: (nat, nat, nat, nat) -> nat)
      requires data != dst
      requires CopyFits(data[..], bytesPerValue, Count(voxelCount))
      requires DstBytes(dstBytesPerVal, Count(voxelCount)) <= dst.Length
      modifies dst
      ensures forall i :: 0 <= i < Count(voxelCount) ==>
        Stored(dst[..], dstBytesPerVal, i, scale(CopySample(data[..], order, bytesPerValue, i), min, max, rangeMax))
      ensures forall k :: DstBytes(dstBytesPerVal, Count(voxelCount)) <= k < dst.Length ==> dst[k] == old(dst[k])
    {
      var n := Count(voxelCount);
      var i := 0;
      while i < voxelCount
        invariant 0 <= i <= n
        invariant forall j :: 0 <= j < i ==>
          Stored(dst[..], dstBytesPerVal, j, scale(CopySample(data[..], order, bytesPerValue, j), min, max, rangeMax))
        invariant forall k :: DstBytes(dstBytesPerVal, i) <= k < dst.Length ==> dst[k] == old(dst[k])
      {
        var raw: nat;
        if bytesPerValue == 1 {
          raw := data[i];
        } else if order == BigEndian {
          raw := data[i * 2] as int * 256 + data[i * 2 + 1] as int;
        } else {
          raw := data[i * 2] as int + 256 * data[i * 2 + 1] as int;
        }
        var val := scale(raw, min, max, rangeMax);
        if dstBytesPerVal == 1 {
          dst[i] := val % 256;
        } else {
          dst[2 * i] := val % 256;
          dst[2 * i + 1] := (val / 256) % 256;
        }
        i := i + 1;
      }
    }

    /** normalizeData(voxelCount, byteOrder, dstBytesPerVal, data, dst) as
        written. The floating-point value map (scaleHistogram under
        linearize, raw / rangeMax * 255 for 16-bit samples into 8-bit
        entries) is the parameter scale; the minimum and maximum it receives
        come from findMinMax under linearize and are rangeMax and 0
        otherwise. */
    method NormalizeData(voxelCount: int, order: ByteOrder, dstBytesPerVal: u32,
                         data: array<byte>, dst: array<byte>, scale: (nat, nat, nat, nat) -> nat)
      returns (min: u32, max: u32)
      requires bitDepth < 32
      requires ValueAssigned(linearize, CeilDiv8(bitDepth), dstBytesPerVal)
      requires data != dst
      requires linearize ==> ScanFits(data[..], CeilDiv8(bitDepth), Count(voxelCount))
      requires CopyFits(data[..], CeilDiv8(bitDepth), Count(voxelCount))
      requires DstBytes(dstBytesPerVal, Count(voxelCount)) <= dst.Length
      modifies dst
      ensures linearize ==> min == RunMin(ScanSamples(data[..], CeilDiv8(bitDepth), Count(voxelCount)), Pow2(bitDepth))
      ensures linearize ==> max == RunMax(ScanSamples(data[..], CeilDiv8(bitDepth), Count(voxelCount)), 0)
      ensures !linearize ==> min == Pow2(bitDepth) && max == 0
      ensures forall i :: 0 <= i < Count(voxelCount) ==>
        Stored(dst[..], dstBytesPerVal, i, scale(CopySample(data[..], order, CeilDiv8(bitDepth), i), min, max, Pow2(bitDepth)))
      ensures forall k :: DstBytes(dstBytesPerVal, Count(voxelCount)) <= k < dst.Length ==> dst[k] == old(dst[k])
    {
      var bytesPerValue := CeilDiv8(bitDepth);
      Pow2Monotone(bitDepth, 31);
      Pow2Word();
      Pow2Add(31, 1);
      var rangeMax: u32 := Pow2(bitDepth);
      min, max := rangeMax, 0;
      if linearize {
        min, max := FindMinMax(voxelCount, bytesPerValue, data, min, max);
      }
      StoreValues(voxelCount, order, bytesPerValue, dstBytesPerVal, data, dst, min, max, rangeMax, scale);
    }

    /** normalizeData with val set to the raw sample when neither the
        linearization nor the 16-to-8-bit conversion applies, so that every
        call stores a defined value: the sample itself when the loader is
        not linearizing and dst has the samples' width. */
    method NormalizeDataDefined(voxelCount: int, order: ByteOrder, dstBytesPerVal: u32,
                                data: array<byte>, dst: array<byte>, scale: (nat, nat, nat, nat) -> nat)
      returns (min: u32, max: u32)
      requires bitDepth < 32
      requires data != dst
      requires linearize ==> ScanFits(data[..], CeilDiv8(bitDepth), Count(voxelCount))
      requires CopyFits(data[..], CeilDiv8(bitDepth), Count(voxelCount))
      requires DstBytes(dstBytesPerVal, Count(voxelCount)) <= dst.Length
      modifies dst
      ensures linearize ==> min == RunMin(ScanSamples(data[..], CeilDiv8(bitDepth), Count(voxelCount)), Pow2(bitDepth))
      ensures linearize ==> max == RunMax(ScanSamples(data[..], CeilDiv8(bitDepth), Count(voxelCount)), 0)
      ensures !linearize ==> min == Pow2(bitDepth) && max == 0
      ensures ValueAssigned(linearize, CeilDiv8(bitDepth), dstBytesPerVal) ==> forall i :: 0 <= i < Count(voxelCount) ==>
        Stored(dst[..], dstBytesPerVal, i, scale(CopySample(data[..], order, CeilDiv8(bitDepth), i), min, max, Pow2(bitDepth)))
      ensures !ValueAssigned(linearize, CeilDiv8(bitDepth), dstBytesPerVal) ==> forall i :: 0 <= i < Count(voxelCount) ==>
        Stored(dst[..], dstBytesPerVal, i, CopySample(data[..], order, CeilDiv8(bitDepth), i))
      ensures forall k :: DstBytes(dstBytesPerVal, Count(voxelCount)) <= k < dst.Length ==> dst[k] == old(dst[k])
    {
      var bytesPerValue := CeilDiv8(bitDepth);
      Pow2Monotone(bitDepth, 31);
      Pow2Word();
      Pow2Add(31, 1);
      var rangeMax: u32 := Pow2(bitDepth);
      min, max := rangeMax, 0;
      if linearize {
        min, max := FindMinMax(voxelCount, bytesPerValue, data, min, max);
      }
      var converts := ValueAssigned(linearize, bytesPerValue, dstBytesPerVal);
      var value := (raw: nat, lo: nat, hi: nat, top: nat) => if converts then scale(raw, lo, hi, top) else raw;
      StoreValues(voxelCount, order, bytesPerValue, dstBytesPerVal, data, dst, min, max, rangeMax, value);
    }

    /** findMinMax reading the samples as normalizeData does, in the file's
        byte order. */
    method FindMinMaxInOrder(voxelCount: int, order: ByteOrder, bytesPerValue: u32, data: array<byte>,
                             min0: u32, max0: u32)
      returns (min: u32, max: u32)
      requires CopyFits(data[..], bytesPerValue, Count(voxelCount))
      ensures min == RunMin(CopySamples(data[..], order, bytesPerValue, Count(voxelCount)), min0)
      ensures max == RunMax(CopySamples(data[..], order, bytesPerValue, Count(voxelCount)), max0)
    {
      var n := Count(voxelCount);
      ghost var s := CopySamples(data[..], order, bytesPerValue, n);
      min, max := min0, max0;
      var i := 0;
      while i < voxelCount
        invariant 0 <= i <= n
        invariant min == RunMin(s[..i], min0) && max == RunMax(s[..i], max0)
      {
        var raw := CopySample(data[..], order, bytesPerValue, i);
        RunStep(s, i, min0, max0);
        min, max := Min(min, raw), Max(max, raw);
        i := i + 1;
      }
      assert s[..i] == s;
    }

    /** normalizeData with the minimum and maximum taken over the samples it
        converts: under linearize every sample handed to scale lies between
        the minimum and the maximum handed with it. */
    method NormalizeDataInOrder(voxelCount: int, order: ByteOrder, dstBytesPerVal: u32,
                                data: array<byte>, dst: array<byte>, scale: (nat, nat, nat, nat) -> nat)
      returns (min: u32, max: u32)
      requires bitDepth < 32
      requires ValueAssigned(linearize, CeilDiv8(bitDepth), dstBytesPerVal)
      requires data != dst
      requires CopyFits(data[..], CeilDiv8(bitDepth), Count(voxelCount))
      requires DstBytes(dstBytesPerVal, Count(voxelCount)) <= dst.Length
      modifies dst
      ensures linearize ==> forall i :: 0 <= i < Count(voxelCount) ==>
        min <= CopySample(data[..], order, CeilDiv8(bitDepth), i) <= max
      ensures !linearize ==> min == Pow2(bitDepth) && max == 0
      ensures forall i :: 0 <= i < Count(voxelCount) ==>
        Stored(dst[..], dstBytesPerVal, i, scale(CopySample(data[..], order, CeilDiv8(bitDepth), i), min, max, Pow2(bitDepth)))
      ensures forall k :: DstBytes(dstBytesPerVal, Count(voxelCount)) <= k < dst.Length ==> dst[k] == old(dst[k])
    {
      var bytesPerValue := CeilDiv8(bitDepth);
      Pow2Monotone(bitDepth, 31);
      Pow2Word();
      Pow2Add(31, 1);
      var rangeMax: u32 := Pow2(bitDepth);
      min, max := rangeMax, 0;
      if linearize {
        min, max := FindMinMaxInOrder(voxelCount, order, bytesPerValue, data, min, max);
        RunMinIsMinimum(CopySamples(data[..], order, bytesPerValue, Count(voxelCount)), rangeMax);
        RunMaxIsMaximum(CopySamples(data[..], order, bytesPerValue, Count(voxelCount)), 0);
      }
      StoreValues(voxelCount, order, bytesPerValue, dstBytesPerVal, data, dst, min, max, rangeMax, scale);
    }
  }

  /** Both loaders pass normalizeData as many bytes per entry as per sample
      (dstBytesPerVal is bytesPerValue in Formats/RawLoader.cpp:36 and
      components with bitDepth = components * 8 in Formats/DDSLoader.cpp:554).
      Once setLinearize(false) has been called, no such call assigns val, so
      every entry normalizeData stores is an uninitialised value. */
  lemma UnlinearizedLoadLeavesValueUnassigned(bitDepth: int, dstBytesPerVal: int)
    requires dstBytesPerVal == CeilDiv8(bitDepth)
    ensures !ValueAssigned(false, CeilDiv8(bitDepth), dstBytesPerVal)
  {
  }

  /** A little-endian 16-bit file holding the single sample 1 (bytes 01 00):
      findMinMax reads it as 256, so normalizeData as written hands scale
      the sample 1 together with the minimum 256. */
  lemma ScanIgnoresByteOrder()
    ensures ScanFits([1, 0], 2, 1) && CopyFits([1, 0], 2, 1)
    ensures RunMin(ScanSamples([1, 0], 2, 1), Pow2(16)) == 256
    ensures CopySample([1, 0], LittleEndian, 2, 0) == 1
  {
    var s := ScanSamples([1, 0], 2, 1);
    assert s == [256];
    assert s[..0] == [];
    Pow2Word();
  }

  /** The samples findMinMax reads agree with the ones normalizeData
      converts for big-endian files and for single-byte samples. */
  lemma ScanAgreesWithCopy(data: seq<byte>, order: ByteOrder, bytesPerValue: nat, n: nat)
    requires bytesPerValue == 1 || (bytesPerValue == 2 && order == BigEndian)
    requires CopyFits(data, bytesPerValue, n)
    ensures ScanFits(data, bytesPerValue, n)
    ensures ScanSamples(data, bytesPerValue, n) == CopySamples(data, order, bytesPerValue, n)
  {
  }
}
