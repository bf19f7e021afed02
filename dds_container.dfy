/** The DDS container (Formats/DDSLoader.cpp:259-372): the signature that
    selects the interleave block, the raw fallback the volume and image
    readers use, and swapshort. Files are byte sequences already in memory. */
module DdsContainer {
  import opened Machine
  import opened CText
  import opened DdsDecode

  /** What a reader hands back: a value, NULL ("not this format"), or the
      fatal ERRORMSG() that ends the process. */
  datatype Outcome<T> = Ok(value: T) | NotThisFormat | Fatal

  /** DDS_ID, "DDS v3d\n": a stream decoded without interleave windows. */
  const DdsId: seq<byte> := [68, 68, 83, 32, 118, 51, 100, 10]

  /** DDS_ID2, "DDS v3e\n": a stream decoded with DDS_INTERLEAVE windows. */
  const DdsId2: seq<byte> := [68, 68, 83, 32, 118, 51, 101, 10]

  /** DDS_INTERLEAVE. */
  const InterleaveBlock: nat := 0x100_0000

  predicate StartsWith(file: seq<byte>, id: seq<byte>)
  {
    |id| <= |file| && file[..|id|] == id
  }

  // ---------------------------------------------------------------------------
  // readDDSfile and readRAWfile

  /** The interleave block the signature selects, or None for any other start. */
  function SignatureBlock(file: seq<byte>): (r: Option<nat>)
  {
    if StartsWith(file, DdsId) then Some(0)
    else if StartsWith(file, DdsId2) then Some(InterleaveBlock)
    else None
  }

  /** readDDSfile: the payload after the signature, decoded. An empty payload
      is fatal; a stream that decodes to nothing reads as NULL. */
  function ReadDds(file: seq<byte>): Outcome<seq<byte>>
  {
    match SignatureBlock(file)
    case None => NotThisFormat
    case Some(block) =>
      var chunk := file[|DdsId|..];
      if |chunk| == 0 then Fatal
      else
        var data := Decoded(chunk, block);
        if |data| == 0 then NotThisFormat else Ok(data)
  }

  /** readRAWfile: the whole file, or NULL when it is empty. */
  function ReadRaw(file: seq<byte>): Outcome<seq<byte>>
  {
    if |file| == 0 then NotThisFormat else Ok(file)
  }

  /** The first step of readPNMimage and readPVMvolume: the DDS reading of the
      file, or failing that its raw bytes. */
  function DdsOrRaw(file: seq<byte>): (r: Outcome<seq<byte>>)
    ensures r.Ok? ==> |r.value| > 0
  {
    match ReadDds(file)
    case NotThisFormat => ReadRaw(file)
    case other => other
  }

  /** "DDS v3d\n" selects block 0 and "DDS v3e\n" selects DDS_INTERLEAVE. */
  lemma SignatureSelectsBlock(payload: seq<byte>)
    ensures SignatureBlock(DdsId + payload) == Some(0)
    ensures SignatureBlock(DdsId2 + payload) == Some(InterleaveBlock)
  {
    assert (DdsId + payload)[..|DdsId|] == DdsId;
    assert (DdsId2 + payload)[..|DdsId2|] == DdsId2;
    assert DdsId[6] != DdsId2[6];
  }

  /** A signed, non-empty payload is decoded with the block its signature selects. */
  lemma ReadDdsDecodes(payload: seq<byte>)
    requires |payload| > 0
    ensures var d := Decoded(payload, 0);
      ReadDds(DdsId + payload) == if |d| == 0 then NotThisFormat else Ok(d)
    ensures var d := Decoded(payload, InterleaveBlock);
      ReadDds(DdsId2 + payload) == if |d| == 0 then NotThisFormat else Ok(d)
  {
    SignatureSelectsBlock(payload);
    assert (DdsId + payload)[|DdsId|..] == payload;
    assert (DdsId2 + payload)[|DdsId2|..] == payload;
  }

  /** A signature with nothing after it is fatal. */
  lemma EmptyPayloadIsFatal()
    ensures ReadDds(DdsId) == Fatal && ReadDds(DdsId2) == Fatal
  {
    SignatureSelectsBlock([]);
    assert DdsId + [] == DdsId && DdsId2 + [] == DdsId2;
  }

  /** Without a signature, or when the stream decodes to nothing, the readers
      fall back to the raw bytes of the whole file. */
  lemma FallsBackToRaw(file: seq<byte>)
    requires ReadDds(file) == NotThisFormat
    ensures DdsOrRaw(file) == if |file| == 0 then NotThisFormat else Ok(file)
  {
  }

  /** Any start other than the two signatures is not DDS. */
  lemma UnsignedIsRaw(file: seq<byte>)
    requires !StartsWith(file, DdsId) && !StartsWith(file, DdsId2)
    ensures ReadDds(file) == NotThisFormat
    ensures DdsOrRaw(file) == ReadRaw(file)
  {
  }

  /** The signature loop of readDDSfile: one byte of the file against one
      character of the signature at a time, stopping at the first mismatch
      (fgetc's EOF matches nothing). */
  method MatchSignature(file: seq<byte>, id: seq<byte>) returns (matched: bool)
    ensures matched <==> StartsWith(file, id)
  {
    var cnt := 0;
    while cnt < |id|
      invariant cnt <= |id| && cnt <= |file| && file[..cnt] == id[..cnt]
    {
      if cnt >= |file| || file[cnt] != id[cnt] {
        return false;
      }
      cnt := cnt + 1;
    }
    assert id[..cnt] == id;
    return true;
  }

  /** readDDSfile(filename, &bytes) on the file's bytes. */
  method ReadDdsFile(file: seq<byte>) returns (r: Outcome<seq<byte>>)
    ensures r == ReadDds(file)
  {
    var block := 0;
    var v1 := MatchSignature(file, DdsId);
    if !v1 {
      var v2 := MatchSignature(file, DdsId2);
      if !v2 {
        return NotThisFormat;
      }
      block := InterleaveBlock;
    }
    var chunk := file[|DdsId|..];
    if |chunk| == 0 {
      return Fatal;
    }
    var data := Decode(chunk, block);
    if |data| == 0 {
      return NotThisFormat;
    }
    return Ok(data);
  }

  /** The opening of readPNMimage and readPVMvolume: readDDSfile, then
      readRAWfile when that gives NULL. */
  method ReadDdsOrRaw(file: seq<byte>) returns (r: Outcome<seq<byte>>)
    ensures r == DdsOrRaw(file)
  {
    r := ReadDdsFile(file);
    if r.NotThisFormat? {
      r := ReadRaw(file);
    }
  }

  // ---------------------------------------------------------------------------
  // swapshort

  /** The other byte of the 16-bit pair that holds position k. */
  function Partner(k: nat): (j: nat)
    ensures j / 2 == k / 2 && j != k
  {
    if k % 2 == 0 then k + 1 else k - 1
  }

  /** The first n byte pairs of s each swapped, the rest unchanged. */
  function SwappedPairs(s: seq<byte>, n: nat): (r: seq<byte>)
    requires 2 * n <= |s|
    ensures |r| == |s|
  {
    seq(|s|, k requires 0 <= k < |s| => if k < 2 * n then s[Partner(k)] else s[k])
  }

  /** Swapping the same pairs twice restores the bytes. */
  lemma SwapTwice(s: seq<byte>, n: nat)
    requires 2 * n <= |s|
    ensures SwappedPairs(SwappedPairs(s, n), n) == s
  {
    var t := SwappedPairs(s, n);
    forall k | 0 <= k < |s|
      ensures SwappedPairs(t, n)[k] == s[k]
    {
      if k < 2 * n {
        assert Partner(k) < 2 * n;
      }
    }
  }

  /** swapshort(ptr, size): the byte order of each of size 16-bit values flipped in place. */
  method SwapShort(a: array<byte>, size: nat)
    requires 2 * size <= a.Length
    modifies a
    ensures a[..] == SwappedPairs(old(a[..]), size)
  {
    var i := 0;
    while i < size
      invariant i <= size
      invariant forall q :: 0 <= q < i ==> a[2 * q] == old(a[2 * q + 1]) && a[2 * q + 1] == old(a[2 * q])
      invariant forall t :: 2 * i <= t < a.Length ==> a[t] == old(a[t])
    {
      var lo, hi := a[2 * i], a[2 * i + 1];
      a[2 * i] := hi;
      a[2 * i + 1] := lo;
      i := i + 1;
    }
    PairsSwapped(old(a[..]), a[..], size);
  }

  /** Pairs swapped one by one, the rest untouched, is SwappedPairs. */
  lemma PairsSwapped(s: seq<byte>, r: seq<byte>, n: nat)
    requires 2 * n <= |s| == |r|
    requires forall q :: 0 <= q < n ==> r[2 * q] == s[2 * q + 1] && r[2 * q + 1] == s[2 * q]
    requires forall t :: 2 * n <= t < |s| ==> r[t] == s[t]
    ensures r == SwappedPairs(s, n)
  {
    forall t | 0 <= t < 2 * n
      ensures r[t] == s[Partner(t)]
    {
      var q := t / 2;
      if t % 2 == 0 {
        assert t == 2 * q && Partner(t) == 2 * q + 1;
        assert r[2 * q] == s[2 * q + 1];
      } else {
        assert t == 2 * q + 1 && Partner(t) == 2 * q;
        assert r[2 * q + 1] == s[2 * q];
      }
    }
  }
}
