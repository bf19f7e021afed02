/** readPVMvolume (Formats/DDSLoader.cpp:443-541) and the call loadFile makes
    of it (Formats/DDSLoader.cpp:543-558): the PVM, PVM2 and PVM3 headers,
    the component count, the four PVM3 trailer strings and the exact-size
    check, over the buffer the DDS or raw reader produced. */
module Pvm {
  import opened Machine
  import opened CText
  import opened DdsContainer

  /** "PVM\n": version 1, with '#' comment lines and no scales. */
  const PvmMagic: seq<byte> := [80, 86, 77, 10]

  /** "PVM2\n": version 2, with a line of three scales. */
  const Pvm2Magic: seq<byte> := [80, 86, 77, 50, 10]

  /** "PVM3\n": version 3, with scales and four trailer strings. */
  const Pvm3Magic: seq<byte> := [80, 86, 77, 51, 10]

  /** Which of the optional out-parameters the caller passes as non-NULL
      (the scales count only when all three are there). */
  datatype Slots = Slots(components: bool, scales: bool,
                         description: bool, courtesy: bool, parameter: bool, comment: bool)

  /** DDSLoader::loadFile passes the dimensions and the components slot only. */
  const LoadFileSlots: Slots := Slots(true, false, false, false, false, false)

  /** The voxel spacing: 1.0 on every axis for version 1, otherwise the three
      %g fields of the second header line, kept as their characters. */
  datatype Scales = UnitScales | ReadScales(x: seq<byte>, y: seq<byte>, z: seq<byte>)

  /** What the header lines give: the version, the dimensions, the scales and
      the position that the first strchr after the header starts from. */
  datatype Header = Header(version: nat, width: u32, height: u32, depth: u32, scales: Scales, line: nat)

  /** What readPVMvolume hands back: the dimensions, the component count, the
      scales when the caller asked for them, the returned buffer (voxels and
      trailer strings) and the trailer strings whose slots it fills. */
  datatype Volume = Volume(width: u32, height: u32, depth: u32, components: u32,
                           scales: Option<Scales>, data: seq<byte>,
                           description: Option<seq<byte>>, courtesy: Option<seq<byte>>,
                           parameter: Option<seq<byte>>, comment: Option<seq<byte>>)

  /** The number of voxel bytes: the unsigned product of the reader when wrap
      holds, the true product otherwise. */
  function VoxelBytes(width: nat, height: nat, depth: nat, components: nat, wrap: bool): nat
  {
    if wrap then Wrap32(width * height * depth * components) else width * height * depth * components
  }

  // ---------------------------------------------------------------------------
  // The header

  /** The version the first bytes announce, or None for any other file. */
  function Version(d: seq<byte>): (r: Option<nat>)
    requires |d| >= 5
    ensures r == Some(1) <==> StartsWith(d, PvmMagic)
    ensures r == Some(2) <==> !StartsWith(d, PvmMagic) && StartsWith(d, Pvm2Magic)
    ensures r == Some(3) <==> !StartsWith(d, PvmMagic) && StartsWith(d, Pvm3Magic)
    ensures r.Some? ==> 1 <= r.value <= 3
  {
    if d[..4] == PvmMagic then Some(1)
    else if d[..5] == Pvm2Magic then Some(2)
    else if d[..5] == Pvm3Magic then Some(3)
    else None
  }

  /** The version 1 loop over '#' lines: each one is skipped up to and past its
      newline; the bytes are read without regard to NULs, and running past the
      terminating NUL is fatal. */
  function SkipComments(d: seq<byte>, p: nat): (r: Outcome<nat>)
    requires p < |d|
    ensures !r.NotThisFormat?
    ensures r.Ok? ==> p <= r.value < |d| && d[r.value] != HASH
    decreases |d| - p
  {
    if d[p] != HASH then Ok(p)
    else match Find(d, p, NEWLINE)
      case None => Fatal
      case Some(q) => if q + 1 < |d| then SkipComments(d, q + 1) else Fatal
  }

  /** strchr(ptr, '\n') + 1: the start of the next line; a C string without a
      newline is fatal. */
  function NextLine(d: seq<byte>, p: nat): (r: Outcome<nat>)
    requires p <= |d|
    ensures !r.NotThisFormat?
    ensures r.Ok? ==> p < r.value <= |d| && d[r.value - 1] == NEWLINE
  {
    match StrChr(d, p, NEWLINE)
    case None => Fatal
    case Some(q) => Ok(q + 1)
  }

  /** The dimensions read into unsigned ints, or None when one is 0. */
  function Dimensions(v: seq<int>): (r: Option<(u32, u32, u32)>)
    requires |v| == 3
    ensures r.Some? ==> r.value.0 >= 1 && r.value.1 >= 1 && r.value.2 >= 1
  {
    var (w, h, z) := (Wrap32(v[0]), Wrap32(v[1]), Wrap32(v[2]));
    if w < 1 || h < 1 || z < 1 then None else Some((w, h, z))
  }

  /** The version 1 header: comment lines, then sscanf "%d %d %d\n". */
  function Header1(d: seq<byte>): (r: Outcome<Header>)
    requires |d| > 4
    ensures !r.NotThisFormat?
    ensures r.Ok? ==> r.value.version == 1 && r.value.scales == UnitScales && r.value.line < |d|
    ensures r.Ok? ==> r.value.width >= 1 && r.value.height >= 1 && r.value.depth >= 1
  {
    var c := SkipComments(d, 4);
    if !c.Ok? then Fatal
    else
      var v := ScanInts(d, c.value, 3);
      if v.None? then Fatal
      else
        var dims := Dimensions(v.value.value);
        if dims.None? then Fatal
        else Ok(Header(1, dims.value.0, dims.value.1, dims.value.2, UnitScales, c.value))
  }

  /** The version 2 and 3 header: sscanf "%d %d %d\n%g %g %g\n" from byte 5,
      positive dimensions and scales, then the line after the first newline. */
  function Header23(d: seq<byte>, version: nat): (r: Outcome<Header>)
    requires |d| > 5
    ensures !r.NotThisFormat?
    ensures r.Ok? ==> r.value.version == version && r.value.scales.ReadScales? && r.value.line <= |d|
    ensures r.Ok? ==> r.value.width >= 1 && r.value.height >= 1 && r.value.depth >= 1
    ensures r.Ok? ==> var s := r.value.scales;
      PositiveField(s.x) && PositiveField(s.y) && PositiveField(s.z)
  {
    var v := ScanInts(d, 5, 3);
    if v.None? then Fatal
    else
      var f := ScanFloats(d, v.value.next, 3);
      if f.None? then Fatal
      else
        var dims := Dimensions(v.value.value);
        var s := f.value.value;
        if dims.None? || !PositiveField(s[0]) || !PositiveField(s[1]) || !PositiveField(s[2]) then Fatal
        else
          var l := NextLine(d, 5);
          if !l.Ok? then Fatal
          else Ok(Header(version, dims.value.0, dims.value.1, dims.value.2,
                         ReadScales(s[0], s[1], s[2]), l.value))
  }

  /** The header of the NUL-terminated buffer d for its version. */
  function ParseHeader(d: seq<byte>, version: nat): (r: Outcome<Header>)
    requires |d| > 5 && 1 <= version <= 3
    ensures !r.NotThisFormat?
    ensures r.Ok? ==> r.value.version == version && r.value.line <= |d|
    ensures r.Ok? ==> r.value.width >= 1 && r.value.height >= 1 && r.value.depth >= 1
  {
    if version == 1 then Header1(d) else Header23(d, version)
  }

  // ---------------------------------------------------------------------------
  // The component count, the trailer and the size check

  /** strlen(s) + 1 for one trailer string at s; a string that would start
      past the terminating NUL is fatal. */
  function TrailerLength(d: seq<byte>, s: nat): (r: Option<nat>)
    ensures r.Some? ==> r.value >= 1 && s + r.value <= |d| + 1
  {
    if s < |d| then Some(StrLen(d, s) + 1) else None
  }

  /** The number of trailer strings under version 3: description, courtesy,
      parameter and comment. */
  const TRAILER: nat := 4

  /** strlen(s) + 1 for count strings, each one where the one before ended. */
  function TrailerFrom(d: seq<byte>, s: nat, count: nat): (r: Option<seq<nat>>)
    ensures r.Some? ==> |r.value| == count
    ensures r.Some? ==> forall k :: 0 <= k < count ==> r.value[k] >= 1
    decreases count
  {
    if count == 0 then Some([])
    else match TrailerLength(d, s)
      case None => None
      case Some(l) =>
        match TrailerFrom(d, s + l, count - 1)
        case None => None
        case Some(rest) => Some([l] + rest)
  }

  /** len1 .. len4 for the trailer that starts at s: four strings under
      version 3, none otherwise. */
  function Trailer(d: seq<byte>, s: nat, version: nat): (r: Option<seq<nat>>)
    ensures r.Some? ==> |r.value| == 4
    ensures r.Some? && version != 3 ==> r.value == [0, 0, 0, 0]
    ensures r.Some? && version == 3 ==> forall k :: 0 <= k < 4 ==> r.value[k] >= 1
  {
    if version != 3 then Some([0, 0, 0, 0]) else TrailerFrom(d, s, TRAILER)
  }

  function Sum(lens: seq<nat>): nat
  {
    if lens == [] then 0 else lens[0] + Sum(lens[1..])
  }

  /** A trailer string the caller's slot receives: the len - 1 characters at
      offset at of the volume, when the slot is there and len is above 1. */
  function Meta(volume: seq<byte>, at: nat, len: nat, slot: bool): (r: Option<seq<byte>>)
    requires at + len <= |volume|
    ensures r.Some? <==> slot && len > 1
    ensures r.Some? ==> r.value == volume[at..at + len - 1]
  {
    if slot && len > 1 then Some(volume[at..at + len - 1]) else None
  }

  /** The component count line and the line after it: the voxels start at
      the second newline after the header. */
  function ParseBody(d: seq<byte>, hd: Header, slots: Slots, wrap: bool): (r: Outcome<Volume>)
    requires hd.line <= |d|
    ensures !r.NotThisFormat?
    ensures r.Ok? ==> r.value.width == hd.width && r.value.height == hd.height && r.value.depth == hd.depth
    ensures r.Ok? ==> r.value.components >= 1 && (!slots.components ==> r.value.components == 1)
  {
    var p1 := NextLine(d, hd.line);
    if !p1.Ok? then Fatal
    else
      var n := ScanInt(d, p1.value);
      if n.None? then Fatal
      else
        var numc := Wrap32(n.value.value);
        if numc < 1 || (!slots.components && numc != 1) then Fatal
        else
          var p2 := NextLine(d, p1.value);
          if !p2.Ok? then Fatal
          else Assemble(d, hd, numc, p2.value, VoxelBytes(hd.width, hd.height, hd.depth, numc, wrap), slots)
  }

  /** The voxels at p2, size bytes of them, then the trailer; the file must
      end right after them (d holds the appended NUL). */
  function Assemble(d: seq<byte>, hd: Header, numc: u32, p2: nat, size: nat, slots: Slots): (r: Outcome<Volume>)
    requires p2 <= |d|
    ensures !r.NotThisFormat?
    ensures r.Ok? ==> r.value.width == hd.width && r.value.height == hd.height && r.value.depth == hd.depth
    ensures r.Ok? ==> r.value.components == numc
  {
    var t := Trailer(d, p2 + size, hd.version);
    if t.None? then Fatal
    else
      var lens := t.value;
      var total := size + lens[0] + lens[1] + lens[2] + lens[3];
      if |d| != p2 + total + 1 then Fatal
      else
        Ok(Fields(hd, numc, size, slots, lens, d[p2..p2 + total]))
  }

  /** The volume Assemble returns: the header's dimensions, the component
      count, the scales when asked for, the data read, and each trailer
      string without its NUL when it is asked for and not empty. */
  function Fields(hd: Header, numc: u32, size: nat, slots: Slots, lens: seq<nat>, volume: seq<byte>): (v: Volume)
    requires |lens| == 4 && size + lens[0] + lens[1] + lens[2] + lens[3] <= |volume|
    ensures v.width == hd.width && v.height == hd.height && v.depth == hd.depth && v.components == numc
  {
    var scales := if slots.scales then Some(hd.scales) else None;
    Volume(hd.width, hd.height, hd.depth, numc, scales, volume,
           Meta(volume, size, lens[0], slots.description),
           Meta(volume, size + lens[0], lens[1], slots.courtesy),
           Meta(volume, size + lens[0] + lens[1], lens[2], slots.parameter),
           Meta(volume, size + lens[0] + lens[1] + lens[2], lens[3], slots.comment))
  }

  /** readPVMvolume on the buffer the DDS or raw reader produced: fewer than 5
      bytes or an unknown start is NULL; the reader then works on the bytes
      with a NUL appended. */
  function ParseVolume(data: seq<byte>, slots: Slots, wrap: bool): (r: Outcome<Volume>)
    ensures r.Ok? ==> |data| >= 5 && Version(data).Some?
  {
    if |data| < 5 then NotThisFormat
    else
      var version := Version(data);
      if version.None? then NotThisFormat
      else
        var d := data + [0];
        var hd := ParseHeader(d, version.value);
        if !hd.Ok? then Fatal else ParseBody(d, hd.value, slots, wrap)
  }

  /** readPVMvolume on a file's bytes. */
  function Parse(file: seq<byte>, slots: Slots, wrap: bool): (r: Outcome<Volume>)
  {
    var data := DdsOrRaw(file);
    if data.Ok? then ParseVolume(data.value, slots, wrap)
    else if data.Fatal? then Fatal
    else NotThisFormat
  }

  /** readPVMvolume as written: the voxel byte count is an unsigned product. */
  function ReadPvm(file: seq<byte>, slots: Slots): (r: Outcome<Volume>)
    ensures r.Ok? ==> var data := DdsOrRaw(file);
      data.Ok? && |data.value| >= 5 && Version(data.value).Some?
    ensures r.Ok? ==> r.value.width >= 1 && r.value.height >= 1 && r.value.depth >= 1
    ensures r.Ok? ==> r.value.components >= 1 && (!slots.components ==> r.value.components == 1)
  {
    Parse(file, slots, true)
  }

  /** readPVMvolume with the true product in the size check. */
  function ReadPvmChecked(file: seq<byte>, slots: Slots): (r: Outcome<Volume>)
    ensures r.Ok? ==> var data := DdsOrRaw(file);
      data.Ok? && |data.value| >= 5 && Version(data.value).Some?
    ensures r.Ok? ==> r.value.width >= 1 && r.value.height >= 1 && r.value.depth >= 1
    ensures r.Ok? ==> r.value.components >= 1 && (!slots.components ==> r.value.components == 1)
  {
    Parse(file, slots, false)
  }

  // ---------------------------------------------------------------------------
  // readPVMvolume step by step

  /** while (*ptr=='#') while (*ptr++!='\n'); over the NUL-terminated
      buffer d from start. */
  method SkipCommentLines(d: seq<byte>, start: nat) returns (r: Outcome<nat>)
    requires start < |d|
    ensures r == SkipComments(d, start)
  {
    var ptr := start;
    while d[ptr] == HASH
      invariant start <= ptr < |d|
      invariant SkipComments(d, ptr) == SkipComments(d, start)
      decreases |d| - ptr
    {
      var line := ptr;
      var c := d[ptr];
      ptr := ptr + 1;
      while c != NEWLINE
        invariant line < ptr <= |d| && d[line] == HASH
        invariant Find(d, line, NEWLINE) == if c == NEWLINE then Some(ptr - 1) else Find(d, ptr, NEWLINE)
        decreases |d| - ptr
      {
        if ptr == |d| {
          return Fatal;
        }
        c := d[ptr];
        ptr := ptr + 1;
      }
      if ptr == |d| {
        return Fatal;
      }
    }
    return Ok(ptr);
  }

  /** The version 1 branch: the comment loop, then sscanf "%d %d %d\n" and
      the check that each dimension is at least 1. */
  method ReadHeader1(d: seq<byte>) returns (r: Outcome<Header>)
    requires |d| > 4
    ensures r == Header1(d)
  {
    var c := SkipCommentLines(d, 4);
    if !c.Ok? {
      return Fatal;
    }
    var v := ScanInts(d, c.value, 3);
    if v.None? {
      return Fatal;
    }
    var dims := Dimensions(v.value.value);
    if dims.None? {
      return Fatal;
    }
    return Ok(Header(1, dims.value.0, dims.value.1, dims.value.2, UnitScales, c.value));
  }

  /** readPVMvolume(filename, ...) on the file's bytes, with the slots the
      caller passes. */
  method ReadPvmVolume(file: seq<byte>, slots: Slots) returns (r: Outcome<Volume>)
    ensures r == ReadPvm(file, slots)
  {
    var data := ReadDdsOrRaw(file);
    if !data.Ok? {
      return if data.Fatal? then Fatal else NotThisFormat;
    }
    var bytes := data.value;
    if |bytes| < 5 {
      return NotThisFormat;
    }
    var version := Version(bytes);
    if version.None? {
      return NotThisFormat;
    }
    var d := bytes + [0];
    var hd;
    if version.value == 1 {
      hd := ReadHeader1(d);
    } else {
      hd := Header23(d, version.value);
    }
    if !hd.Ok? {
      return Fatal;
    }
    r := ParseBody(d, hd.value, slots, true);
  }

  // ---------------------------------------------------------------------------
  // What an accepted volume satisfies

  /** The returned buffer is the end of the file: the voxels, then under
      version 3 exactly four C strings, each with its NUL. */
  lemma AssembledSize(d: seq<byte>, hd: Header, numc: u32, p2: nat, size: nat, slots: Slots)
    requires p2 <= |d| && Assemble(d, hd, numc, p2, size, slots).Ok?
    ensures var v := Assemble(d, hd, numc, p2, size, slots).value;
      && |v.data| < |d| && v.data == d[|d| - 1 - |v.data|..|d| - 1]
      && (hd.version != 3 ==> |v.data| == size)
      && (hd.version == 3 ==> |v.data| >= size + 4 && CStrings(v.data, size, |v.data|, TRAILER))
  {
    AssembledData(d, hd, numc, p2, size, slots);
    DataShape(d, Assemble(d, hd, numc, p2, size, slots).value.data, p2, size, hd.version);
  }

  /** The bytes from p2 over the voxels and the trailer, up to the terminating
      NUL. */
  lemma DataShape(d: seq<byte>, data: seq<byte>, p2: nat, size: nat, version: nat)
    requires Trailer(d, p2 + size, version).Some?
    requires var e := p2 + size + Sum(Trailer(d, p2 + size, version).value);
      |d| == e + 1 && data == d[p2..e]
    ensures |data| < |d| && data == d[|d| - 1 - |data|..|d| - 1]
    ensures version != 3 ==> |data| == size
    ensures version == 3 ==> |data| >= size + 4 && CStrings(data, size, |data|, TRAILER)
  {
    SumOfFour(Trailer(d, p2 + size, version).value);
    if version == 3 {
      TrailerTail(d, data, p2, size, p2 + size + Sum(Trailer(d, p2 + size, version).value),
                  Trailer(d, p2 + size, version).value, TRAILER);
    }
  }

  /** The bytes from p2 to e that hold the voxels and then a version 3
      trailer: after the voxels, four C strings. */
  lemma TrailerTail(d: seq<byte>, data: seq<byte>, p2: nat, size: nat, e: nat, lens: seq<nat>, count: nat)
    requires TrailerFrom(d, p2 + size, count) == Some(lens)
    requires e == p2 + size + Sum(lens) && e < |d| && data == d[p2..e]
    ensures CStrings(data, size, |data|, count)
  {
    TrailerStrings(d, p2 + size, e, count, lens);
    TailStrings(d, data, p2, size, e, count);
  }

  /** C strings in d after the voxels are C strings in the returned copy. */
  lemma TailStrings(d: seq<byte>, data: seq<byte>, p2: nat, size: nat, e: nat, count: nat)
    requires p2 + size <= e < |d| && data == d[p2..e]
    requires CStrings(d, p2 + size, e, count)
    ensures CStrings(data, size, |data|, count)
  {
    CStringsShift(d, data, p2, size, |data|, count);
  }

  /** The returned buffer runs from p2 over the voxels and the trailer to
      the terminating NUL. */
  lemma AssembledData(d: seq<byte>, hd: Header, numc: u32, p2: nat, size: nat, slots: Slots)
    requires p2 <= |d| && Assemble(d, hd, numc, p2, size, slots).Ok?
    ensures Trailer(d, p2 + size, hd.version).Some?
    ensures var e := p2 + size + Sum(Trailer(d, p2 + size, hd.version).value);
      && |d| == e + 1 && Assemble(d, hd, numc, p2, size, slots).value.data == d[p2..e]
  {
    SumOfFour(Trailer(d, p2 + size, hd.version).value);
  }

  /** The strlen calls of a trailer of count strings that ends at e, before
      the terminating NUL, read count C strings. */
  lemma {:induction false} TrailerStrings(d: seq<byte>, s: nat, e: nat, count: nat, lens: seq<nat>)
    requires TrailerFrom(d, s, count) == Some(lens)
    requires e == s + Sum(lens) && e < |d|
    ensures CStrings(d, s, e, count)
    decreases count
  {
    if count > 0 {
      TrailerStep(d, s, count, lens);
      TrailerStrings(d, s + StrLen(d, s) + 1, e, count - 1, lens[1..]);
    }
  }

  /** The first string of a trailer and the ones after it. */
  lemma TrailerStep(d: seq<byte>, s: nat, count: nat, lens: seq<nat>)
    requires count > 0 && TrailerFrom(d, s, count) == Some(lens)
    ensures s < |d| && |lens| == count && lens[0] == StrLen(d, s) + 1
    ensures TrailerFrom(d, s + StrLen(d, s) + 1, count - 1) == Some(lens[1..])
    ensures Sum(lens) == StrLen(d, s) + 1 + Sum(lens[1..])
  {
    assert lens[1..] == TrailerFrom(d, s + lens[0], count - 1).value;
  }

  lemma SumOfFour(lens: seq<nat>)
    requires |lens| == 4
    ensures Sum(lens) == lens[0] + lens[1] + lens[2] + lens[3]
  {
    var t := lens[1..];
    assert Sum(t[1..][1..]) == t[1..][1..][0] + Sum(t[1..][1..][1..]);
    assert t[1..][1..][1..] == [];
    assert Sum(t[1..]) == t[1..][0] + Sum(t[1..][1..]);
    assert Sum(t) == t[0] + Sum(t[1..]);
  }

  /** The scales reach the caller exactly when it asks for them. */
  lemma AssembledScales(d: seq<byte>, hd: Header, numc: u32, p2: nat, size: nat, slots: Slots)
    requires p2 <= |d| && Assemble(d, hd, numc, p2, size, slots).Ok?
    ensures var v := Assemble(d, hd, numc, p2, size, slots).value;
      (v.scales.Some? <==> slots.scales) && (slots.scales ==> v.scales == Some(hd.scales))
  {
  }

  /** A trailer string reaches its slot only under version 3, when the slot
      is there and the string is not empty. */
  lemma AssembledSlots(d: seq<byte>, hd: Header, numc: u32, p2: nat, size: nat, slots: Slots)
    requires p2 <= |d| && Assemble(d, hd, numc, p2, size, slots).Ok?
    ensures var v := Assemble(d, hd, numc, p2, size, slots).value;
      && (v.description.Some? ==> slots.description && hd.version == 3 && |v.description.value| > 0)
      && (v.courtesy.Some? ==> slots.courtesy && hd.version == 3 && |v.courtesy.value| > 0)
      && (v.parameter.Some? ==> slots.parameter && hd.version == 3 && |v.parameter.value| > 0)
      && (v.comment.Some? ==> slots.comment && hd.version == 3 && |v.comment.value| > 0)
  {
    var t := Trailer(d, p2 + size, hd.version).value;
    assert hd.version != 3 ==> t == [0, 0, 0, 0];
  }

  /** AssembledSize for the body ParseBody reads: the returned buffer is
      the end of the file's bytes (d holds the NUL the reader appends). */
  lemma BodySize(d: seq<byte>, hd: Header, slots: Slots, wrap: bool, v: Volume)
    requires hd.line <= |d| && ParseBody(d, hd, slots, wrap) == Ok(v)
    ensures var size := VoxelBytes(hd.width, hd.height, hd.depth, v.components, wrap);
      && |v.data| < |d| && v.data == d[|d| - 1 - |v.data|..|d| - 1]
      && (hd.version != 3 ==> |v.data| == size)
      && (hd.version == 3 ==> |v.data| >= size + 4 && CStrings(v.data, size, |v.data|, TRAILER))
  {
    var p1 := NextLine(d, hd.line).value;
    var numc := Wrap32(ScanInt(d, p1).value.value);
    var p2 := NextLine(d, p1).value;
    AssembledSize(d, hd, numc, p2, VoxelBytes(hd.width, hd.height, hd.depth, numc, wrap), slots);
  }

  // ---------------------------------------------------------------------------
  // The text of a version 1 file

  /** The size line "<w> <h> <d>\n". */
  function DimsLine(w: nat, h: nat, z: nat): (r: seq<byte>)
    ensures |r| == |Decimal(w)| + |Decimal(h)| + |Decimal(z)| + 3
  {
    Decimal(w) + ([SPACE] + (Decimal(h) + ([SPACE] + (Decimal(z) + [NEWLINE]))))
  }

  /** The component line "<c>\n". */
  function CountLine(c: nat): (r: seq<byte>)
    ensures |r| == |Decimal(c)| + 1
  {
    Decimal(c) + [NEWLINE]
  }

  /** The version 1 file without comments that holds voxels of the given
      dimensions and component count. */
  function PvmFile(w: nat, h: nat, z: nat, c: nat, voxels: seq<byte>): (f: seq<byte>)
    ensures |f| == 4 + |DimsLine(w, h, z)| + |CountLine(c)| + |voxels|
  {
    PvmMagic + (DimsLine(w, h, z) + (CountLine(c) + voxels))
  }

  /** The positions in a PvmFile and its terminating NUL: the size line from 4
      with its numbers ending at e0, e1 and e2, the component line from p1
      with its number ending at e3, and the voxels from p2. */
  predicate Layout(d: seq<byte>, w: nat, h: nat, z: nat, c: nat, voxels: seq<byte>,
                   e0: nat, e1: nat, e2: nat, p1: nat, e3: nat, p2: nat)
  {
    && e0 == 4 + |Decimal(w)| && e1 == e0 + 1 + |Decimal(h)| && e2 == e1 + 1 + |Decimal(z)|
    && p1 == e2 + 1 && e3 == p1 + |Decimal(c)| && p2 == e3 + 1 && |d| == p2 + |voxels| + 1
    && At(d, 4, Decimal(w)) && At(d, e0 + 1, Decimal(h)) && At(d, e1 + 1, Decimal(z))
    && d[e0] == SPACE && d[e1] == SPACE && d[e2] == NEWLINE
    && At(d, p1, Decimal(c)) && d[e3] == NEWLINE && At(d, p2, voxels)
  }

  /** A PvmFile, NUL-terminated, has its Layout. */
  lemma FileLayout(w: nat, h: nat, z: nat, c: nat, voxels: seq<byte>,
                   e0: nat, e1: nat, e2: nat, p1: nat, e3: nat, p2: nat)
    requires e0 == 4 + |Decimal(w)| && e1 == e0 + 1 + |Decimal(h)| && e2 == e1 + 1 + |Decimal(z)|
    requires p1 == e2 + 1 && e3 == p1 + |Decimal(c)| && p2 == e3 + 1
    ensures Layout(PvmFile(w, h, z, c, voxels) + [0], w, h, z, c, voxels, e0, e1, e2, p1, e3, p2)
  {
    var d := PvmFile(w, h, z, c, voxels) + [0];
    FileLines(d, w, h, z, c, voxels, p1, p2);
    LinePieces(d, 4, Decimal(w), Decimal(h), Decimal(z), e0, e1, e2);
    AtSplit(d, p1, Decimal(c), [NEWLINE]);
    AtByte(d, e3, NEWLINE);
  }

  /** The lines of a PvmFile, NUL-terminated. */
  lemma FileLines(d: seq<byte>, w: nat, h: nat, z: nat, c: nat, voxels: seq<byte>, p1: nat, p2: nat)
    requires d == PvmFile(w, h, z, c, voxels) + [0]
    requires p1 == 4 + |DimsLine(w, h, z)| && p2 == p1 + |CountLine(c)|
    ensures At(d, 4, DimsLine(w, h, z)) && At(d, p1, CountLine(c)) && At(d, p2, voxels)
    ensures |d| == p2 + |voxels| + 1
  {
    var rest := DimsLine(w, h, z) + (CountLine(c) + voxels);
    assert At(d, 0, PvmMagic + rest) by {
      assert d[0..|PvmMagic + rest|] == PvmMagic + rest;
    }
    AtSplit(d, 0, PvmMagic, rest);
    AtSplit(d, 4, DimsLine(w, h, z), CountLine(c) + voxels);
    AtSplit(d, p1, CountLine(c), voxels);
  }

  /** The pieces of a line a SPACE b SPACE c NEWLINE at i, with a ending at
      e0, b at e1 and c at e2. */
  lemma LinePieces(d: seq<byte>, i: nat, a: seq<byte>, b: seq<byte>, c: seq<byte>, e0: nat, e1: nat, e2: nat)
    requires At(d, i, a + ([SPACE] + (b + ([SPACE] + (c + [NEWLINE])))))
    requires e0 == i + |a| && e1 == e0 + 1 + |b| && e2 == e1 + 1 + |c|
    ensures At(d, i, a) && At(d, e0 + 1, b) && At(d, e1 + 1, c) && e2 < |d|
    ensures d[e0] == SPACE && d[e1] == SPACE && d[e2] == NEWLINE
  {
    SplitAfter(d, i, a, SPACE, b + ([SPACE] + (c + [NEWLINE])));
    SplitAfter(d, e0 + 1, b, SPACE, c + [NEWLINE]);
    AtSplit(d, e1 + 1, c, [NEWLINE]);
    AtByte(d, e2, NEWLINE);
  }

  /** sscanf "%d %d %d\n" reads the size line of a Layout back. */
  lemma ScanDecimals(d: seq<byte>, i: nat, e0: nat, e1: nat, e2: nat, w: nat, h: nat, z: nat)
    requires At(d, i, Decimal(w)) && At(d, e0 + 1, Decimal(h)) && At(d, e1 + 1, Decimal(z)) && e2 < |d|
    requires e0 == i + |Decimal(w)| && e1 == e0 + 1 + |Decimal(h)| && e2 == e1 + 1 + |Decimal(z)|
    requires d[e0] == SPACE && d[e1] == SPACE && d[e2] == NEWLINE
    ensures ScanInts(d, i, 3) == Some(Scanned([w] + ([h] + [z]), e2))
  {
    ReadDecimalAt(d, i, i, w, e0);
    ReadDecimalAt(d, e0, e0 + 1, h, e1);
    ReadDecimalAt(d, e1, e1 + 1, z, e2);
    ScanIntsThree(d, i, e0, e1, e2, w, h, z);
  }

  /** %d at i reads n from its decimal digits at j, after at most one space,
      and stops at e. */
  lemma ReadDecimalAt(d: seq<byte>, i: nat, j: nat, n: nat, e: nat)
    requires At(d, j, Decimal(n)) && e == j + |Decimal(n)| && e < |d|
    requires i == j || (i + 1 == j && d[i] == SPACE)
    requires d[e] == SPACE || d[e] == NEWLINE
    ensures ScanInt(d, i) == Some(Scanned(n, e))
  {
    ScanIntReadsDecimal(d, i, j, n);
  }

  /** Three %d conversions, each one where the one before stopped. */
  lemma ScanIntsThree(d: seq<byte>, i: nat, e0: nat, e1: nat, e2: nat, x: int, y: int, z: int)
    requires i <= e0 <= e1 <= e2 <= |d|
    requires ScanInt(d, i) == Some(Scanned(x, e0))
    requires ScanInt(d, e0) == Some(Scanned(y, e1))
    requires ScanInt(d, e1) == Some(Scanned(z, e2))
    ensures ScanInts(d, i, 3) == Some(Scanned([x] + ([y] + [z]), e2))
  {
    assert ScanInts(d, e2, 0) == Some(Scanned([], e2));
    ScanIntsCons(d, e1, 0, Scanned(z, e2), Scanned([], e2));
    assert [z] + [] == [z];
    ScanIntsCons(d, e0, 1, Scanned(y, e1), Scanned([z], e2));
    ScanIntsCons(d, i, 2, Scanned(x, e0), Scanned([y] + [z], e2));
  }

  /** strchr finds the newline that ends the size line of a Layout. */
  lemma DecimalsEnd(d: seq<byte>, i: nat, e0: nat, e1: nat, e2: nat, a: seq<byte>, b: seq<byte>, c: seq<byte>)
    requires At(d, i, a) && At(d, e0 + 1, b) && At(d, e1 + 1, c) && e2 < |d|
    requires AllDigits(a) && AllDigits(b) && AllDigits(c)
    requires e0 == i + |a| && e1 == e0 + 1 + |b| && e2 == e1 + 1 + |c|
    requires d[e0] == SPACE && d[e1] == SPACE && d[e2] == NEWLINE
    ensures StrChr(d, i, NEWLINE) == Some(e2)
  {
    assert DigitsUpTo(d, i, a, e0, SPACE) && DigitsUpTo(d, e0 + 1, b, e1, SPACE) && DigitsUpTo(d, e1 + 1, c, e2, NEWLINE);
    RunsEnd(d, i, e0, e1, e2, a, b, c);
  }

  /** strchr for a newline over three digit runs, the first two followed by
      a space and the last by the newline. */
  lemma RunsEnd(d: seq<byte>, i: nat, e0: nat, e1: nat, e2: nat, a: seq<byte>, b: seq<byte>, c: seq<byte>)
    requires DigitsUpTo(d, i, a, e0, SPACE) && DigitsUpTo(d, e0 + 1, b, e1, SPACE) && DigitsUpTo(d, e1 + 1, c, e2, NEWLINE)
    ensures StrChr(d, i, NEWLINE) == Some(e2)
  {
    DigitsThenSpace(d, i, a, e0);
    DigitsThenSpace(d, e0 + 1, b, e1);
    DigitsThenNewline(d, e1 + 1, c, e2);
  }

  /** The digits a at j, then the byte sep at e. */
  predicate DigitsUpTo(d: seq<byte>, j: nat, a: seq<byte>, e: nat, sep: byte)
  {
    At(d, j, a) && e == j + |a| && AllDigits(a) && e < |d| && d[e] == sep
  }

  /** strchr for a newline finds the one after a run of digits. */
  lemma DigitsThenNewline(d: seq<byte>, j: nat, a: seq<byte>, e: nat)
    requires DigitsUpTo(d, j, a, e, NEWLINE)
    ensures StrChr(d, j, NEWLINE) == Some(e)
  {
    DigitsHaveNoNewline(d, j, a, e);
    StrChrHere(d, e, NEWLINE);
  }

  /** strchr for a newline passes over digits and the space after them. */
  lemma DigitsThenSpace(d: seq<byte>, j: nat, a: seq<byte>, e: nat)
    requires DigitsUpTo(d, j, a, e, SPACE)
    ensures StrChr(d, j, NEWLINE) == StrChr(d, e + 1, NEWLINE)
  {
    DigitsHaveNoNewline(d, j, a, e);
    StrChrStep(d, e, NEWLINE);
  }

  /** strchr for a newline passes over digits. */
  lemma DigitsHaveNoNewline(d: seq<byte>, j: nat, a: seq<byte>, e: nat)
    requires At(d, j, a) && e == j + |a| && AllDigits(a)
    ensures StrChr(d, j, NEWLINE) == StrChr(d, e, NEWLINE)
  {
    forall k | j <= k < e ensures d[k] != NEWLINE && d[k] != 0 {
      assert d[k] == a[k - j];
    }
    StrChrSkip(d, j, e, NEWLINE);
  }

  /** sscanf "%d\n" and strchr over the component line of a Layout. */
  lemma ReadCountLine(d: seq<byte>, p1: nat, e3: nat, c: nat)
    requires At(d, p1, Decimal(c)) && e3 == p1 + |Decimal(c)| && e3 < |d| && d[e3] == NEWLINE
    ensures ScanInt(d, p1) == Some(Scanned(c, e3))
    ensures StrChr(d, p1, NEWLINE) == Some(e3)
  {
    ReadDecimalAt(d, p1, p1, c, e3);
    DigitsHaveNoNewline(d, p1, Decimal(c), e3);
  }

  // ---------------------------------------------------------------------------
  // Reading a version 1 file back

  /** What readPVMvolume gives for a version 1 file: no trailer strings, and
      unit scales when the caller asks for them. */
  function PlainVolume(w: u32, h: u32, z: u32, c: u32, voxels: seq<byte>, slots: Slots): (v: Volume)
    ensures v.data == voxels && v.description.None? && v.comment.None?
  {
    Volume(w, h, z, c, if slots.scales then Some(UnitScales) else None, voxels, None, None, None, None)
  }

  lemma DimensionsOf(w: nat, h: nat, z: nat)
    requires 1 <= w < WORD && 1 <= h < WORD && 1 <= z < WORD
    ensures Dimensions([w] + ([h] + [z])) == Some((w, h, z))
  {
    assert ([w] + ([h] + [z]))[1] == h;
  }

  /** The header of a Layout reads back its dimensions. */
  lemma HeaderOfLayout(d: seq<byte>, w: nat, h: nat, z: nat, c: nat, voxels: seq<byte>,
                       e0: nat, e1: nat, e2: nat, p1: nat, e3: nat, p2: nat)
    requires Layout(d, w, h, z, c, voxels, e0, e1, e2, p1, e3, p2)
    requires 1 <= w < WORD && 1 <= h < WORD && 1 <= z < WORD
    ensures Header1(d) == Ok(Header(1, w, h, z, UnitScales, 4))
  {
    assert d[4] == Decimal(w)[0];
    assert SkipComments(d, 4) == Ok(4);
    ScanDecimals(d, 4, e0, e1, e2, w, h, z);
    DimensionsOf(w, h, z);
  }

  /** The two strchr calls and the %d after the header of a Layout. */
  lemma LinesOfLayout(d: seq<byte>, w: nat, h: nat, z: nat, c: nat, voxels: seq<byte>,
                      e0: nat, e1: nat, e2: nat, p1: nat, e3: nat, p2: nat)
    requires Layout(d, w, h, z, c, voxels, e0, e1, e2, p1, e3, p2)
    ensures NextLine(d, 4) == Ok(p1)
    ensures ScanInt(d, p1) == Some(Scanned(c, e3)) && NextLine(d, p1) == Ok(p2)
  {
    DecimalsEnd(d, 4, e0, e1, e2, Decimal(w), Decimal(h), Decimal(z));
    ReadCountLine(d, p1, e3, c);
  }

  /** The body of a Layout: accepted exactly when the voxels fill the size the
      reader computes. */
  lemma BodyOfLayout(d: seq<byte>, w: nat, h: nat, z: nat, c: nat, voxels: seq<byte>,
                     e0: nat, e1: nat, e2: nat, p1: nat, e3: nat, p2: nat, slots: Slots, wrap: bool)
    requires Layout(d, w, h, z, c, voxels, e0, e1, e2, p1, e3, p2)
    requires 1 <= w < WORD && 1 <= h < WORD && 1 <= z < WORD && 1 <= c < WORD
    requires slots.components || c == 1
    ensures ParseBody(d, Header(1, w, h, z, UnitScales, 4), slots, wrap)
         == if |voxels| == VoxelBytes(w, h, z, c, wrap) then Ok(PlainVolume(w, h, z, c, voxels, slots)) else Fatal
  {
    LinesOfLayout(d, w, h, z, c, voxels, e0, e1, e2, p1, e3, p2);
    var size := VoxelBytes(w, h, z, c, wrap);
    PlainBody(d, Header(1, w, h, z, UnitScales, 4), slots, wrap, p1, c, e3, p2, size);
    if |voxels| == size {
      assert d[p2..p2 + size] == voxels;
    }
  }

  /** The body of a version 1 file whose component line at p1 holds c and
      whose voxels start at p2. */
  lemma PlainBody(d: seq<byte>, hd: Header, slots: Slots, wrap: bool, p1: nat, c: nat, e3: nat, p2: nat, size: nat)
    requires hd.line <= |d| && hd.version == 1 && hd.scales == UnitScales && p2 <= |d|
    requires NextLine(d, hd.line) == Ok(p1) && ScanInt(d, p1) == Some(Scanned(c, e3)) && NextLine(d, p1) == Ok(p2)
    requires 1 <= c < WORD && (slots.components || c == 1)
    requires size == VoxelBytes(hd.width, hd.height, hd.depth, c, wrap)
    ensures ParseBody(d, hd, slots, wrap)
         == if |d| == p2 + size + 1 then Ok(PlainVolume(hd.width, hd.height, hd.depth, c, d[p2..p2 + size], slots)) else Fatal
  {
    assert Trailer(d, p2 + size, 1) == Some([0, 0, 0, 0]);
  }

  /** A PvmFile is not DDS, and announces version 1. */
  lemma FileStart(w: nat, h: nat, z: nat, c: nat, voxels: seq<byte>)
    ensures DdsOrRaw(PvmFile(w, h, z, c, voxels)) == Ok(PvmFile(w, h, z, c, voxels))
    ensures Version(PvmFile(w, h, z, c, voxels)) == Some(1)
  {
    var f := PvmFile(w, h, z, c, voxels);
    assert f[..4] == PvmMagic;
    assert f[0] != DdsId[0] && f[0] != DdsId2[0];
    UnsignedIsRaw(f);
  }

  /** readPVMvolume on a version 1 file: the header reads back, and the file is
      accepted exactly when its voxels fill the size the reader computes. */
  lemma PvmFileParses(w: nat, h: nat, z: nat, c: nat, voxels: seq<byte>, slots: Slots, wrap: bool)
    requires 1 <= w < WORD && 1 <= h < WORD && 1 <= z < WORD && 1 <= c < WORD
    requires slots.components || c == 1
    ensures Parse(PvmFile(w, h, z, c, voxels), slots, wrap)
         == if |voxels| == VoxelBytes(w, h, z, c, wrap) then Ok(PlainVolume(w, h, z, c, voxels, slots)) else Fatal
  {
    var e0 := 4 + |Decimal(w)|;
    var e1 := e0 + 1 + |Decimal(h)|;
    var e2 := e1 + 1 + |Decimal(z)|;
    var p1 := e2 + 1;
    var e3 := p1 + |Decimal(c)|;
    var p2 := e3 + 1;
    var f := PvmFile(w, h, z, c, voxels);
    var d := f + [0];
    FileStart(w, h, z, c, voxels);
    FileLayout(w, h, z, c, voxels, e0, e1, e2, p1, e3, p2);
    HeaderOfLayout(d, w, h, z, c, voxels, e0, e1, e2, p1, e3, p2);
    BodyOfLayout(d, w, h, z, c, voxels, e0, e1, e2, p1, e3, p2, slots, wrap);
  }

  /** "PVM\n65536 65536 1\n1\n" with no voxel bytes: readPVMvolume as written
      accepts it as a 65536 x 65536 x 1 volume of one component, because the
      unsigned product 2^32 wraps to 0; with the true product the size check
      rejects it. */
  lemma WrappedVolumeAccepted()
    ensures ReadPvm(PvmFile(65536, 65536, 1, 1, []), LoadFileSlots)
         == Ok(PlainVolume(65536, 65536, 1, 1, [], LoadFileSlots))
    ensures ReadPvmChecked(PvmFile(65536, 65536, 1, 1, []), LoadFileSlots) == Fatal
  {
    PvmFileParses(65536, 65536, 1, 1, [], LoadFileSlots, true);
    PvmFileParses(65536, 65536, 1, 1, [], LoadFileSlots, false);
    DivModUnique(65536 * 65536 * 1 * 1, WORD, 1, 0);
  }

  // ---------------------------------------------------------------------------
  // The wrapped and the true product

  lemma VoxelBytesBelowWord(w: nat, h: nat, z: nat, c: nat)
    requires w * h * z * c < WORD
    ensures VoxelBytes(w, h, z, c, true) == VoxelBytes(w, h, z, c, false)
  {
    MulNonNegative(w * h, z);
    MulNonNegative(w * h * z, c);
    SmallMod(w * h * z * c);
  }

  lemma BodyAgreesBelowWord(d: seq<byte>, hd: Header, slots: Slots, wrap: bool)
    requires hd.line <= |d|
    requires var r := ParseBody(d, hd, slots, wrap);
      r.Ok? && r.value.width * r.value.height * r.value.depth * r.value.components < WORD
    ensures ParseBody(d, hd, slots, !wrap) == ParseBody(d, hd, slots, wrap)
  {
    var p1 := NextLine(d, hd.line).value;
    var numc := Wrap32(ScanInt(d, p1).value.value);
    VoxelBytesBelowWord(hd.width, hd.height, hd.depth, numc);
  }

  /** readPVMvolume as written and with the true product agree on every volume
      whose width * height * depth * components fits in 32 bits. */
  lemma CheckedAgreesBelowWord(file: seq<byte>, slots: Slots, wrap: bool)
    requires var r := Parse(file, slots, wrap);
      r.Ok? && r.value.width * r.value.height * r.value.depth * r.value.components < WORD
    ensures Parse(file, slots, !wrap) == Parse(file, slots, wrap)
  {
    var data := DdsOrRaw(file).value;
    var d := data + [0];
    BodyAgreesBelowWord(d, ParseHeader(d, Version(data).value).value, slots, wrap);
  }
}
