/** Version 2 and version 3 PVM files written out, and what readPVMvolume
    (Formats/DDSLoader.cpp:443-541) gives for them: the scales line is read,
    and under version 3 the four trailer strings reach their slots. */
module PvmFiles {
  import opened Machine
  import opened CText
  import opened DdsContainer
  import opened Pvm

  /** The magic line of a version 2 or 3 file. */
  function Magic(version: nat): (r: seq<byte>)
    ensures |r| == 5
  {
    if version == 2 then Pvm2Magic else Pvm3Magic
  }

  /** The scales line "<sx> <sy> <sz>\n" for whole-number scales: the same
      shape as the size line. */
  function ScalesLine(sx: nat, sy: nat, sz: nat): (r: seq<byte>)
    ensures |r| == |Decimal(sx)| + |Decimal(sy)| + |Decimal(sz)| + 3
  {
    DimsLine(sx, sy, sz)
  }

  /** The strings of a trailer, each followed by its NUL. */
  function Joined(strs: seq<seq<byte>>): seq<byte>
  {
    if strs == [] then [] else strs[0] + ([0] + Joined(strs[1..]))
  }

  /** A trailer text is as long as the lengths TrailerFrom reads add up to. */
  lemma {:induction false} JoinedLength(strs: seq<seq<byte>>)
    ensures |Joined(strs)| == Sum(Lengths(strs))
  {
    if strs != [] {
      JoinedLength(strs[1..]);
    }
  }

  /** strlen + 1 of each string of a trailer. */
  function Lengths(strs: seq<seq<byte>>): (r: seq<nat>)
    ensures |r| == |strs|
    ensures forall k :: 0 <= k < |strs| ==> r[k] == |strs[k]| + 1
  {
    if strs == [] then [] else [|strs[0]| + 1] + Lengths(strs[1..])
  }

  predicate NoNul(x: seq<byte>)
  {
    forall k :: 0 <= k < |x| ==> x[k] != 0
  }

  /** The text of a version 2 or 3 file: the magic line, the size line, the
      scales line, the component line and the body (the voxels, then the
      trailer under version 3). */
  function ScaledFile(version: nat, w: nat, h: nat, z: nat, sx: nat, sy: nat, sz: nat, c: nat,
                      body: seq<byte>): (f: seq<byte>)
    ensures |f| == 5 + |DimsLine(w, h, z)| + |ScalesLine(sx, sy, sz)| + |CountLine(c)| + |body|
  {
    Magic(version) + (DimsLine(w, h, z) + (ScalesLine(sx, sy, sz) + (CountLine(c) + body)))
  }

  /** The scales the reader keeps for whole-number scales. */
  function WholeScales(sx: nat, sy: nat, sz: nat): Scales
  {
    ReadScales(Decimal(sx), Decimal(sy), Decimal(sz))
  }

  /** A trailer string as its slot receives it: there when the caller passes
      the slot and the string is not empty. */
  function Slot(x: seq<byte>, present: bool): (r: Option<seq<byte>>)
    ensures r.Some? <==> present && |x| > 0
  {
    if present && |x| > 0 then Some(x) else None
  }

  /** What readPVMvolume gives for a version 2 file: no trailer strings. */
  function Volume2(w: u32, h: u32, z: u32, c: u32, scales: Scales, voxels: seq<byte>, slots: Slots): (v: Volume)
    ensures v.data == voxels && v.description.None? && v.comment.None?
  {
    Volume(w, h, z, c, if slots.scales then Some(scales) else None, voxels, None, None, None, None)
  }

  /** What readPVMvolume gives for a version 3 file: the voxels and the
      trailer in one buffer, and each string in its slot. */
  function Volume3(w: u32, h: u32, z: u32, c: u32, scales: Scales, voxels: seq<byte>,
                   strs: seq<seq<byte>>, slots: Slots): (v: Volume)
    requires |strs| == 4
    ensures v.data == voxels + Joined(strs)
  {
    Volume(w, h, z, c, if slots.scales then Some(scales) else None, voxels + Joined(strs),
           Slot(strs[0], slots.description), Slot(strs[1], slots.courtesy),
           Slot(strs[2], slots.parameter), Slot(strs[3], slots.comment))
  }

  // ---------------------------------------------------------------------------
  // The lines of a scaled file

  /** A line of three decimals from i, "<a> <b> <c>\n", with its numbers
      ending at e0, e1 and e2. */
  predicate NumbersLine(d: seq<byte>, i: nat, a: nat, b: nat, c: nat, e0: nat, e1: nat, e2: nat)
  {
    && e0 == i + |Decimal(a)| && e1 == e0 + 1 + |Decimal(b)| && e2 == e1 + 1 + |Decimal(c)| && e2 < |d|
    && At(d, i, Decimal(a)) && At(d, e0 + 1, Decimal(b)) && At(d, e1 + 1, Decimal(c))
    && d[e0] == SPACE && d[e1] == SPACE && d[e2] == NEWLINE
  }

  /** A component line from p1, "<c>\n", with its number ending at e3. */
  predicate CountAt(d: seq<byte>, p1: nat, c: nat, e3: nat)
  {
    e3 == p1 + |Decimal(c)| && e3 < |d| && At(d, p1, Decimal(c)) && d[e3] == NEWLINE
  }

  /** The lines after the size line, from q: the scales line with its
      numbers ending at f0, f1 and f2, the component line from p1 with its
      number ending at e3, and the body from p2. */
  predicate Rest(d: seq<byte>, q: nat, sx: nat, sy: nat, sz: nat, c: nat,
                 f0: nat, f1: nat, f2: nat, p1: nat, e3: nat, p2: nat)
  {
    && NumbersLine(d, q, sx, sy, sz, f0, f1, f2) && p1 == f2 + 1
    && CountAt(d, p1, c, e3) && p2 == e3 + 1 && p2 <= |d|
  }

  /** The pieces of a ScaledFile, NUL-terminated. */
  lemma FilePieces(d: seq<byte>, version: nat, w: nat, h: nat, z: nat, sx: nat, sy: nat, sz: nat, c: nat,
                   body: seq<byte>, q: nat, p1: nat, p2: nat)
    requires d == ScaledFile(version, w, h, z, sx, sy, sz, c, body) + [0]
    requires q == 5 + |DimsLine(w, h, z)| && p1 == q + |ScalesLine(sx, sy, sz)| && p2 == p1 + |CountLine(c)|
    ensures At(d, 5, DimsLine(w, h, z)) && At(d, q, DimsLine(sx, sy, sz)) && At(d, p1, CountLine(c))
    ensures At(d, p2, body) && |d| == p2 + |body| + 1
  {
    var m, x, y, u := Magic(version), DimsLine(w, h, z), ScalesLine(sx, sy, sz), CountLine(c);
    var f := ScaledFile(version, w, h, z, sx, sy, sz, c, body);
    assert f == m + (x + (y + (u + body)));
    PrefixAt(f, d);
    Pieces(d, m, x, y, u, body, q, p1, p2);
  }

  /** A buffer holds its own prefix from 0. */
  lemma PrefixAt(f: seq<byte>, d: seq<byte>)
    requires d == f + [0]
    ensures At(d, 0, f) && |d| == |f| + 1
  {
    assert d[0..|f|] == f;
  }

  /** Five pieces one after the other from 0: the last four start at 5, q,
      p1 and p2. */
  lemma Pieces(d: seq<byte>, m: seq<byte>, x: seq<byte>, y: seq<byte>, u: seq<byte>, body: seq<byte>,
               q: nat, p1: nat, p2: nat)
    requires At(d, 0, m + (x + (y + (u + body)))) && |m| == 5
    requires q == 5 + |x| && p1 == q + |y| && p2 == p1 + |u|
    ensures At(d, 5, x) && At(d, q, y) && At(d, p1, u) && At(d, p2, body)
  {
    AtSplit(d, 0, m, x + (y + (u + body)));
    AtSplit(d, 5, x, y + (u + body));
    AtSplit(d, q, y, u + body);
    AtSplit(d, p1, u, body);
  }

  /** A ScaledFile, NUL-terminated, has its SizeLine, its Rest from q and
      its body at p2. */
  lemma FileLines(version: nat, w: nat, h: nat, z: nat, sx: nat, sy: nat, sz: nat, c: nat, body: seq<byte>,
                  e0: nat, e1: nat, e2: nat, q: nat, f0: nat, f1: nat, f2: nat, p1: nat, e3: nat, p2: nat)
    requires e0 == 5 + |Decimal(w)| && e1 == e0 + 1 + |Decimal(h)| && e2 == e1 + 1 + |Decimal(z)| && q == e2 + 1
    requires f0 == q + |Decimal(sx)| && f1 == f0 + 1 + |Decimal(sy)| && f2 == f1 + 1 + |Decimal(sz)|
    requires p1 == f2 + 1 && e3 == p1 + |Decimal(c)| && p2 == e3 + 1
    ensures var d := ScaledFile(version, w, h, z, sx, sy, sz, c, body) + [0];
      && NumbersLine(d, 5, w, h, z, e0, e1, e2) && Rest(d, q, sx, sy, sz, c, f0, f1, f2, p1, e3, p2)
      && At(d, p2, body) && |d| == p2 + |body| + 1
  {
    var d := ScaledFile(version, w, h, z, sx, sy, sz, c, body) + [0];
    FilePieces(d, version, w, h, z, sx, sy, sz, c, body, q, p1, p2);
    NumbersLinePieces(d, 5, w, h, z, e0, e1, e2);
    NumbersLinePieces(d, q, sx, sy, sz, f0, f1, f2);
    CountLinePieces(d, p1, c, e3);
  }

  /** A line "<a> <b> <c>\n" at i is a NumbersLine. */
  lemma NumbersLinePieces(d: seq<byte>, i: nat, a: nat, b: nat, c: nat, e0: nat, e1: nat, e2: nat)
    requires At(d, i, DimsLine(a, b, c))
    requires e0 == i + |Decimal(a)| && e1 == e0 + 1 + |Decimal(b)| && e2 == e1 + 1 + |Decimal(c)|
    ensures NumbersLine(d, i, a, b, c, e0, e1, e2)
  {
    LinePieces(d, i, Decimal(a), Decimal(b), Decimal(c), e0, e1, e2);
  }

  /** A line "<c>\n" at p1 is a CountAt. */
  lemma CountLinePieces(d: seq<byte>, p1: nat, c: nat, e3: nat)
    requires At(d, p1, CountLine(c)) && e3 == p1 + |Decimal(c)|
    ensures CountAt(d, p1, c, e3)
  {
    AtSplit(d, p1, Decimal(c), [NEWLINE]);
    AtByte(d, e3, NEWLINE);
  }

  // ---------------------------------------------------------------------------
  // Reading the header and the component line

  /** %g at i reads the decimal rendering of n at j, after at most one
      space or newline, as its characters, and stops at e. */
  lemma ReadScaleAt(d: seq<byte>, i: nat, n: nat, e: nat)
    requires At(d, i + 1, Decimal(n)) && e == i + 1 + |Decimal(n)| && e < |d|
    requires d[i] == SPACE || d[i] == NEWLINE
    requires d[e] == SPACE || d[e] == NEWLINE
    ensures ScanFloat(d, i) == Some(Scanned(Decimal(n), e))
  {
    ScanFloatReadsDecimal(d, i, i + 1, n);
  }

  /** Three %g conversions, each one where the one before stopped. */
  lemma ScanFloatsThree(d: seq<byte>, i: nat, e0: nat, e1: nat, e2: nat, x: seq<byte>, y: seq<byte>, z: seq<byte>)
    requires i <= e0 <= e1 <= e2 <= |d|
    requires ScanFloat(d, i) == Some(Scanned(x, e0))
    requires ScanFloat(d, e0) == Some(Scanned(y, e1))
    requires ScanFloat(d, e1) == Some(Scanned(z, e2))
    ensures ScanFloats(d, i, 3) == Some(Scanned([x] + ([y] + [z]), e2))
  {
    assert ScanFloats(d, e2, 0) == Some(Scanned([], e2));
    ScanFloatsCons(d, e1, 0, Scanned(z, e2), Scanned([], e2));
    assert [z] + [] == [z];
    ScanFloatsCons(d, e0, 1, Scanned(y, e1), Scanned([z], e2));
    ScanFloatsCons(d, i, 2, Scanned(x, e0), Scanned([y] + [z], e2));
  }

  /** sscanf "%g %g %g\n" at the newline before the scales line reads the
      three scales as their characters. */
  lemma ScanScales(d: seq<byte>, e2: nat, f0: nat, f1: nat, f2: nat, sx: nat, sy: nat, sz: nat)
    requires At(d, e2 + 1, Decimal(sx)) && At(d, f0 + 1, Decimal(sy)) && At(d, f1 + 1, Decimal(sz)) && f2 < |d|
    requires f0 == e2 + 1 + |Decimal(sx)| && f1 == f0 + 1 + |Decimal(sy)| && f2 == f1 + 1 + |Decimal(sz)|
    requires d[e2] == NEWLINE && d[f0] == SPACE && d[f1] == SPACE && d[f2] == NEWLINE
    ensures ScanFloats(d, e2, 3) == Some(Scanned([Decimal(sx)] + ([Decimal(sy)] + [Decimal(sz)]), f2))
  {
    ReadScaleAt(d, e2, sx, f0);
    ReadScaleAt(d, f0, sy, f1);
    ReadScaleAt(d, f1, sz, f2);
    ScanFloatsThree(d, e2, f0, f1, f2, Decimal(sx), Decimal(sy), Decimal(sz));
  }

  /** Header23 once its three conversions and its strchr are known. */
  lemma HeaderFrom(d: seq<byte>, version: nat, w: nat, h: nat, z: nat, a: seq<byte>, b: seq<byte>, c: seq<byte>,
                   e2: nat, q: nat, f2: nat)
    requires |d| > 5 && e2 < |d|
    requires ScanInts(d, 5, 3) == Some(Scanned([w] + ([h] + [z]), e2))
    requires ScanFloats(d, e2, 3) == Some(Scanned([a] + ([b] + [c]), f2))
    requires NextLine(d, 5) == Ok(q)
    requires 1 <= w < WORD && 1 <= h < WORD && 1 <= z < WORD
    requires PositiveField(a) && PositiveField(b) && PositiveField(c)
    ensures Header23(d, version) == Ok(Header(version, w, h, z, ReadScales(a, b, c), q))
  {
    DimensionsOf(w, h, z);
    ThreeOf(a, b, c);
  }

  /** The three elements of a three-element list. */
  lemma ThreeOf<T>(a: T, b: T, c: T)
    ensures var s := [a] + ([b] + [c]); |s| == 3 && s[0] == a && s[1] == b && s[2] == c
  {
  }

  /** The header of a scaled file reads back its dimensions and scales, and
      the next line starts after the size line. */
  lemma HeaderOfLines(d: seq<byte>, version: nat, w: nat, h: nat, z: nat, sx: nat, sy: nat, sz: nat, c: nat,
                      e0: nat, e1: nat, e2: nat, q: nat, f0: nat, f1: nat, f2: nat, p1: nat, e3: nat, p2: nat)
    requires NumbersLine(d, 5, w, h, z, e0, e1, e2) && q == e2 + 1 && Rest(d, q, sx, sy, sz, c, f0, f1, f2, p1, e3, p2)
    requires 1 <= w < WORD && 1 <= h < WORD && 1 <= z < WORD && sx >= 1 && sy >= 1 && sz >= 1
    ensures Header23(d, version) == Ok(Header(version, w, h, z, WholeScales(sx, sy, sz), q))
  {
    LinesScan(d, w, h, z, sx, sy, sz, e0, e1, e2, q, f0, f1, f2);
    HeaderOfScans(d, version, w, h, z, sx, sy, sz, e2, q, f2);
  }

  /** The sscanf calls and the strchr of readPVMvolume over the size and
      scales lines. */
  lemma LinesScan(d: seq<byte>, w: nat, h: nat, z: nat, sx: nat, sy: nat, sz: nat,
                  e0: nat, e1: nat, e2: nat, q: nat, f0: nat, f1: nat, f2: nat)
    requires NumbersLine(d, 5, w, h, z, e0, e1, e2) && q == e2 + 1 && NumbersLine(d, q, sx, sy, sz, f0, f1, f2)
    ensures |d| > 5 && e2 < |d|
    ensures ScanInts(d, 5, 3) == Some(Scanned([w] + ([h] + [z]), e2))
    ensures ScanFloats(d, e2, 3) == Some(Scanned([Decimal(sx)] + ([Decimal(sy)] + [Decimal(sz)]), f2))
    ensures NextLine(d, 5) == Ok(q)
  {
    ScanDecimals(d, 5, e0, e1, e2, w, h, z);
    ScanScales(d, e2, f0, f1, f2, sx, sy, sz);
    DecimalsEnd(d, 5, e0, e1, e2, Decimal(w), Decimal(h), Decimal(z));
    NextLineAfter(d, 5, e2, q);
  }

  /** strchr finding the newline at e puts the next line at q = e + 1. */
  lemma NextLineAfter(d: seq<byte>, p: nat, e: nat, q: nat)
    requires p <= |d| && StrChr(d, p, NEWLINE) == Some(e) && q == e + 1
    ensures NextLine(d, p) == Ok(q)
  {
  }

  /** Header23 once the scans of its two lines are known. */
  lemma HeaderOfScans(d: seq<byte>, version: nat, w: nat, h: nat, z: nat, sx: nat, sy: nat, sz: nat,
                      e2: nat, q: nat, f2: nat)
    requires |d| > 5 && e2 < |d|
    requires ScanInts(d, 5, 3) == Some(Scanned([w] + ([h] + [z]), e2))
    requires ScanFloats(d, e2, 3) == Some(Scanned([Decimal(sx)] + ([Decimal(sy)] + [Decimal(sz)]), f2))
    requires NextLine(d, 5) == Ok(q)
    requires 1 <= w < WORD && 1 <= h < WORD && 1 <= z < WORD && sx >= 1 && sy >= 1 && sz >= 1
    ensures Header23(d, version) == Ok(Header(version, w, h, z, WholeScales(sx, sy, sz), q))
  {
    var a, b, c := Decimal(sx), Decimal(sy), Decimal(sz);
    DecimalPositive(sx);
    DecimalPositive(sy);
    DecimalPositive(sz);
    HeaderFrom(d, version, w, h, z, a, b, c, e2, q, f2);
  }

  /** The body of a scaled file: the component line is read and the voxels
      start at p2. */
  lemma BodyOfLines(d: seq<byte>, hd: Header, sx: nat, sy: nat, sz: nat, c: nat,
                    f0: nat, f1: nat, f2: nat, p1: nat, e3: nat, p2: nat, slots: Slots, wrap: bool)
    requires hd.line <= |d| && Rest(d, hd.line, sx, sy, sz, c, f0, f1, f2, p1, e3, p2)
    requires 1 <= c < WORD && (slots.components || c == 1)
    ensures ParseBody(d, hd, slots, wrap) == Assemble(d, hd, c, p2, VoxelBytes(hd.width, hd.height, hd.depth, c, wrap), slots)
  {
    ScalesLineEnd(d, hd.line, f0, f1, f2, p1, sx, sy, sz);
    ReadCountLine(d, p1, e3, c);
    BodyFrom(d, hd, slots, wrap, p1, c, e3, p2);
  }

  /** strchr finds the newline that ends the scales line. */
  lemma ScalesLineEnd(d: seq<byte>, q: nat, f0: nat, f1: nat, f2: nat, p1: nat, sx: nat, sy: nat, sz: nat)
    requires NumbersLine(d, q, sx, sy, sz, f0, f1, f2) && p1 == f2 + 1
    ensures NextLine(d, q) == Ok(p1)
  {
    DecimalsEnd(d, q, f0, f1, f2, Decimal(sx), Decimal(sy), Decimal(sz));
  }

  /** ParseBody once the strchr after the header, the %d of the component
      line and the strchr after it are known. */
  lemma BodyFrom(d: seq<byte>, hd: Header, slots: Slots, wrap: bool, p1: nat, c: nat, e3: nat, p2: nat)
    requires hd.line <= |d| && p2 <= |d|
    requires NextLine(d, hd.line) == Ok(p1) && ScanInt(d, p1) == Some(Scanned(c, e3)) && NextLine(d, p1) == Ok(p2)
    requires 1 <= c < WORD && (slots.components || c == 1)
    ensures ParseBody(d, hd, slots, wrap) == Assemble(d, hd, c, p2, VoxelBytes(hd.width, hd.height, hd.depth, c, wrap), slots)
  {
  }

  // ---------------------------------------------------------------------------
  // The trailer

  /** strs laid out from s as strlen sees them: each string is as long as
      strlen from where it starts, and the next starts after its NUL. */
  predicate TextAt(d: seq<byte>, s: nat, strs: seq<seq<byte>>)
    decreases |strs|
  {
    strs == [] || (s < |d| && StrLen(d, s) == |strs[0]| && TextAt(d, s + (|strs[0]| + 1), strs[1..]))
  }

  /** A trailer text without NUL bytes inside its strings, placed at s, is
      laid out as strlen sees it. */
  lemma {:induction false} TextOfJoined(d: seq<byte>, s: nat, strs: seq<seq<byte>>)
    requires At(d, s, Joined(strs)) && s + |Joined(strs)| < |d| && NoNuls(strs)
    ensures TextAt(d, s, strs)
    decreases |strs|
  {
    if strs != [] {
      TrailerTextStep(d, s, strs);
      TextOfJoined(d, s + (|strs[0]| + 1), strs[1..]);
    }
  }

  /** strlen + 1 of each string of a trailer text at s, read one after the
      other. */
  lemma {:induction false} TrailerOfText(d: seq<byte>, s: nat, strs: seq<seq<byte>>)
    requires TextAt(d, s, strs)
    ensures TrailerFrom(d, s, |strs|) == Some(Lengths(strs))
    decreases |strs|
  {
    if strs != [] {
      var rest, l := strs[1..], |strs[0]| + 1;
      TrailerOfText(d, s + l, rest);
      TrailerFromCons(d, s, |strs|, |rest|, l, Lengths(rest));
    }
  }

  /** The first string of a trailer text at s: strlen reads it, and the
      rest of the text follows its NUL. */
  lemma TrailerTextStep(d: seq<byte>, s: nat, strs: seq<seq<byte>>)
    requires strs != [] && NoNul(strs[0])
    requires At(d, s, Joined(strs)) && s + |Joined(strs)| < |d|
    ensures s < |d| && StrLen(d, s) == |strs[0]|
    ensures At(d, s + (|strs[0]| + 1), Joined(strs[1..])) && s + (|strs[0]| + 1) + |Joined(strs[1..])| < |d|
  {
    var x := strs[0];
    SplitAfter(d, s, x, 0, Joined(strs[1..]));
    AtNoNul(d, s, x);
    StrLenUnique(d, s, |x|);
  }

  /** A string without NUL bytes placed at s puts none between s and its end. */
  lemma AtNoNul(d: seq<byte>, s: nat, x: seq<byte>)
    requires At(d, s, x) && NoNul(x)
    ensures forall k :: s <= k < s + |x| ==> d[k] != 0
  {
    forall k | s <= k < s + |x| ensures d[k] != 0 {
      assert d[k] == d[s..s + |x|][k - s];
    }
  }

  /** No string of strs holds a NUL byte: each one after the other. */
  predicate NoNuls(strs: seq<seq<byte>>)
  {
    strs == [] || (NoNul(strs[0]) && NoNuls(strs[1..]))
  }

  /** NoNuls says of each string what NoNul says. */
  lemma {:induction false} NoNulsOf(strs: seq<seq<byte>>)
    requires forall k :: 0 <= k < |strs| ==> NoNul(strs[k])
    ensures NoNuls(strs)
  {
    if strs != [] {
      forall k | 0 <= k < |strs[1..]| ensures NoNul(strs[1..][k]) {
        assert strs[1..][k] == strs[k + 1];
      }
      NoNulsOf(strs[1..]);
    }
  }

  /** TrailerFrom reads one length, then the rest where that string ended. */
  lemma TrailerFromCons(d: seq<byte>, s: nat, count: nat, n: nat, l: nat, rest: seq<nat>)
    requires count == n + 1 && TrailerLength(d, s) == Some(l) && TrailerFrom(d, s + l, n) == Some(rest)
    ensures TrailerFrom(d, s, count) == Some([l] + rest)
  {
  }

  /** The first string of a trailer text at at, and the rest after its NUL. */
  lemma StringAt(v: seq<byte>, at: nat, strs: seq<seq<byte>>)
    requires strs != [] && At(v, at, Joined(strs))
    ensures At(v, at, strs[0]) && At(v, at + |strs[0]| + 1, Joined(strs[1..]))
  {
    JoinedCons(strs);
    SplitAfter(v, at, strs[0], 0, Joined(strs[1..]));
  }

  /** A trailer text is its first string, a NUL, and the text of the rest. */
  lemma JoinedCons(strs: seq<seq<byte>>)
    requires strs != []
    ensures Joined(strs) == strs[0] + ([0] + Joined(strs[1..]))
  {
  }

  /** The four strings of a trailer text at at, each where the one before
      ended: at i1, i2 and i3. */
  lemma StringsAt(v: seq<byte>, at: nat, strs: seq<seq<byte>>, i1: nat, i2: nat, i3: nat)
    requires |strs| == 4 && At(v, at, Joined(strs))
    requires i1 == at + |strs[0]| + 1 && i2 == i1 + |strs[1]| + 1 && i3 == i2 + |strs[2]| + 1
    ensures At(v, at, strs[0]) && At(v, i1, strs[1]) && At(v, i2, strs[2]) && At(v, i3, strs[3])
  {
    var t1 := strs[1..];
    var t2 := t1[1..];
    var t3 := t2[1..];
    StringAt(v, at, strs);
    StringAt(v, i1, t1);
    StringAt(v, i2, t2);
    StringAt(v, i3, t3);
  }

  /** Each of the four trailer strings, its length l0 .. l3 read one after
      the other from size, reaches its slot. */
  predicate SlotsHold(volume: seq<byte>, size: nat, strs: seq<seq<byte>>, l0: nat, l1: nat, l2: nat, l3: nat,
                      slots: Slots)
  {
    && |strs| == 4 && size + l0 + l1 + l2 + l3 <= |volume|
    && Meta(volume, size, l0, slots.description) == Slot(strs[0], slots.description)
    && Meta(volume, size + l0, l1, slots.courtesy) == Slot(strs[1], slots.courtesy)
    && Meta(volume, size + l0 + l1, l2, slots.parameter) == Slot(strs[2], slots.parameter)
    && Meta(volume, size + l0 + l1 + l2, l3, slots.comment) == Slot(strs[3], slots.comment)
  }

  /** The four slots Assemble fills from a trailer text at size whose
      strings are l0 .. l3 bytes long with their NULs. */
  lemma SlotsOfText(volume: seq<byte>, size: nat, strs: seq<seq<byte>>, l0: nat, l1: nat, l2: nat, l3: nat, slots: Slots)
    requires |strs| == 4 && At(volume, size, Joined(strs)) && Lengths(strs) == [l0, l1, l2, l3]
    requires size + l0 + l1 + l2 + l3 <= |volume|
    ensures SlotsHold(volume, size, strs, l0, l1, l2, l3, slots)
  {
    var i1 := size + l0;
    var i2 := i1 + l1;
    var i3 := i2 + l2;
    assert Lengths(strs)[0] == l0 && Lengths(strs)[1] == l1 && Lengths(strs)[2] == l2 && Lengths(strs)[3] == l3;
    StringsAt(volume, size, strs, i1, i2, i3);
    MetaAt(volume, size, l0, strs[0], slots.description);
    MetaAt(volume, i1, l1, strs[1], slots.courtesy);
    MetaAt(volume, i2, l2, strs[2], slots.parameter);
    MetaAt(volume, i3, l3, strs[3], slots.comment);
  }

  /** A trailer string at its offset reaches its slot. */
  lemma MetaAt(v: seq<byte>, at: nat, len: nat, x: seq<byte>, slot: bool)
    requires At(v, at, x) && len == |x| + 1 && at + len <= |v|
    ensures Meta(v, at, len, slot) == Slot(x, slot)
  {
  }

  /** Assemble on a version 2 file: the voxels and nothing after them. */
  lemma Assemble2(d: seq<byte>, hd: Header, c: u32, p2: nat, voxels: seq<byte>, size: nat, slots: Slots)
    requires hd.version == 2 && At(d, p2, voxels) && |d| == p2 + |voxels| + 1
    ensures Assemble(d, hd, c, p2, size, slots)
         == if |voxels| == size then Ok(Volume2(hd.width, hd.height, hd.depth, c, hd.scales, voxels, slots)) else Fatal
  {
    assert Trailer(d, p2 + size, 2) == Some([0, 0, 0, 0]);
  }

  /** The trailer lengths l0 .. l3 read at the end of the voxels, the size
      check passed, and the returned buffer. */
  predicate Assembled(d: seq<byte>, hd: Header, p2: nat, size: nat, l0: nat, l1: nat, l2: nat, l3: nat,
                      total: nat, volume: seq<byte>)
  {
    && p2 <= |d| && Trailer(d, p2 + size, hd.version) == Some([l0, l1, l2, l3])
    && total == size + l0 + l1 + l2 + l3 && |d| == p2 + total + 1
    && volume == d[p2..p2 + total]
  }

  /** Assemble once the trailer lengths it reads are known. */
  lemma AssembleOfTrailer(d: seq<byte>, hd: Header, c: u32, p2: nat, size: nat, slots: Slots,
                          l0: nat, l1: nat, l2: nat, l3: nat, total: nat, volume: seq<byte>)
    requires Assembled(d, hd, p2, size, l0, l1, l2, l3, total, volume)
    ensures Assemble(d, hd, c, p2, size, slots) == Ok(Fields(hd, c, size, slots, [l0, l1, l2, l3], volume))
  {
    var lens := [l0, l1, l2, l3];
    assert lens[0] == l0 && lens[1] == l1 && lens[2] == l2 && lens[3] == l3;
  }

  /** Assemble on a version 3 file: the voxels and the four trailer strings,
      each reaching its slot. */
  lemma Assemble3(d: seq<byte>, hd: Header, c: u32, p2: nat, voxels: seq<byte>, strs: seq<seq<byte>>, slots: Slots)
    requires hd.version == 3 && |strs| == 4 && forall k :: 0 <= k < 4 ==> NoNul(strs[k])
    requires At(d, p2, voxels + Joined(strs)) && |d| == p2 + |voxels| + |Joined(strs)| + 1
    ensures Assemble(d, hd, c, p2, |voxels|, slots)
         == Ok(Volume3(hd.width, hd.height, hd.depth, c, hd.scales, voxels, strs, slots))
  {
    var size := |voxels|;
    var lens := Lengths(strs);
    var l0, l1, l2, l3 := lens[0], lens[1], lens[2], lens[3];
    assert lens == [l0, l1, l2, l3];
    var total := size + l0 + l1 + l2 + l3;
    var volume := voxels + Joined(strs);
    VolumeText(d, p2, voxels, strs, l0, l1, l2, l3, total, volume);
    AssembledText(d, hd, p2, voxels, strs, l0, l1, l2, l3, total, volume);
    AssembleText(d, hd, c, p2, voxels, strs, slots, l0, l1, l2, l3, total, volume);
  }

  /** The end of a version 3 file from p2: the voxels, then the four trailer
      strings with lengths l0 .. l3 laid out as strlen sees them, then the
      terminating NUL; volume is the buffer between p2 and that NUL. */
  predicate Trailing(d: seq<byte>, p2: nat, voxels: seq<byte>, strs: seq<seq<byte>>,
                     l0: nat, l1: nat, l2: nat, l3: nat, total: nat, volume: seq<byte>)
  {
    && |strs| == 4 && Lengths(strs) == [l0, l1, l2, l3] && total == |voxels| + l0 + l1 + l2 + l3
    && volume == voxels + Joined(strs) && |volume| == total && At(volume, |voxels|, Joined(strs))
    && |d| == p2 + total + 1 && volume == d[p2..p2 + total] && TextAt(d, p2 + |voxels|, strs)
  }

  /** Assemble3 once the trailer has been read and the size check passed. */
  lemma AssembleText(d: seq<byte>, hd: Header, c: u32, p2: nat, voxels: seq<byte>, strs: seq<seq<byte>>,
                     slots: Slots, l0: nat, l1: nat, l2: nat, l3: nat, total: nat, volume: seq<byte>)
    requires Trailing(d, p2, voxels, strs, l0, l1, l2, l3, total, volume)
    requires Assembled(d, hd, p2, |voxels|, l0, l1, l2, l3, total, volume)
    ensures Assemble(d, hd, c, p2, |voxels|, slots)
         == Ok(Volume3(hd.width, hd.height, hd.depth, c, hd.scales, voxels, strs, slots))
  {
    AssembleOfTrailer(d, hd, c, p2, |voxels|, slots, l0, l1, l2, l3, total, volume);
    FieldsOfVolume(d, p2, hd, c, voxels, strs, slots, l0, l1, l2, l3, total, volume);
  }

  /** The end of a version 3 file: its trailer text laid out as strlen
      sees it after the voxels, its size, and the buffer from p2. */
  lemma VolumeText(d: seq<byte>, p2: nat, voxels: seq<byte>, strs: seq<seq<byte>>,
                   l0: nat, l1: nat, l2: nat, l3: nat, total: nat, volume: seq<byte>)
    requires |strs| == 4 && forall k :: 0 <= k < 4 ==> NoNul(strs[k])
    requires At(d, p2, voxels + Joined(strs)) && |d| == p2 + |voxels| + |Joined(strs)| + 1
    requires Lengths(strs) == [l0, l1, l2, l3] && total == |voxels| + l0 + l1 + l2 + l3
    requires volume == voxels + Joined(strs)
    ensures Trailing(d, p2, voxels, strs, l0, l1, l2, l3, total, volume)
  {
    AtAfter(volume, voxels, Joined(strs));
    AtSplit(d, p2, voxels, Joined(strs));
    NoNulsOf(strs);
    TextOfJoined(d, p2 + |voxels|, strs);
    SizeOfVolume(d, p2, voxels, strs);
    assert volume == d[p2..p2 + total];
  }

  /** A version 3 file's trailer text passes the trailer reads and the size
      check. */
  lemma AssembledText(d: seq<byte>, hd: Header, p2: nat, voxels: seq<byte>, strs: seq<seq<byte>>,
                      l0: nat, l1: nat, l2: nat, l3: nat, total: nat, volume: seq<byte>)
    requires hd.version == 3 && Trailing(d, p2, voxels, strs, l0, l1, l2, l3, total, volume)
    ensures Assembled(d, hd, p2, |voxels|, l0, l1, l2, l3, total, volume)
  {
    TrailerOfText(d, p2 + |voxels|, strs);
    TrailerIsFrom(d, p2 + |voxels|, hd.version, |strs|);
  }

  /** The volume Assemble builds from a version 3 file's buffer: the voxels,
      and each trailer string in its slot. */
  lemma FieldsOfVolume(d: seq<byte>, p2: nat, hd: Header, c: u32, voxels: seq<byte>, strs: seq<seq<byte>>, slots: Slots,
                       l0: nat, l1: nat, l2: nat, l3: nat, total: nat, volume: seq<byte>)
    requires Trailing(d, p2, voxels, strs, l0, l1, l2, l3, total, volume)
    ensures Fields(hd, c, |voxels|, slots, [l0, l1, l2, l3], volume)
         == Volume3(hd.width, hd.height, hd.depth, c, hd.scales, voxels, strs, slots)
  {
    SlotsOfText(volume, |voxels|, strs, l0, l1, l2, l3, slots);
    FieldsOfText(hd, c, voxels, strs, slots, l0, l1, l2, l3, volume);
  }

  /** The second part of a concatenation sits where the first ends. */
  lemma AtAfter(v: seq<byte>, a: seq<byte>, b: seq<byte>)
    requires v == a + b
    ensures At(v, |a|, b)
  {
    assert v[|a|..|a| + |b|] == b;
  }

  /** The volume a version 3 file yields, once each trailer string has
      reached its slot. */
  lemma FieldsOfText(hd: Header, c: u32, voxels: seq<byte>, strs: seq<seq<byte>>, slots: Slots,
                     l0: nat, l1: nat, l2: nat, l3: nat, volume: seq<byte>)
    requires |strs| == 4 && volume == voxels + Joined(strs)
    requires |voxels| + l0 + l1 + l2 + l3 <= |volume|
    requires SlotsHold(volume, |voxels|, strs, l0, l1, l2, l3, slots)
    ensures Fields(hd, c, |voxels|, slots, [l0, l1, l2, l3], volume)
         == Volume3(hd.width, hd.height, hd.depth, c, hd.scales, voxels, strs, slots)
  {
  }

  /** The version 3 trailer is TrailerFrom over its four strings. */
  lemma TrailerIsFrom(d: seq<byte>, s: nat, version: nat, n: nat)
    requires version == 3 && n == 4
    ensures Trailer(d, s, version) == TrailerFrom(d, s, n)
  {
  }

  /** The size check a version 3 file passes: the voxels, the four strings
      and the terminating NUL fill the buffer. */
  lemma SizeOfVolume(d: seq<byte>, p2: nat, voxels: seq<byte>, strs: seq<seq<byte>>)
    requires |strs| == 4 && |d| == p2 + |voxels| + |Joined(strs)| + 1
    ensures var lens := Lengths(strs);
      |d| == p2 + (|voxels| + lens[0] + lens[1] + lens[2] + lens[3]) + 1
  {
    SumOfFour(Lengths(strs));
    JoinedLength(strs);
  }

  // ---------------------------------------------------------------------------
  // Reading a scaled file back

  /** A scaled file is not DDS, and announces its version. */
  lemma FileStart(version: nat, w: nat, h: nat, z: nat, sx: nat, sy: nat, sz: nat, c: nat, body: seq<byte>)
    requires version == 2 || version == 3
    ensures var f := ScaledFile(version, w, h, z, sx, sy, sz, c, body);
      DdsOrRaw(f) == Ok(f) && Version(f) == Some(version)
  {
    var f := ScaledFile(version, w, h, z, sx, sy, sz, c, body);
    assert f[..5] == Magic(version);
    assert f[..4] != PvmMagic by {
      assert f[3] != PvmMagic[3];
    }
    assert f[0] != DdsId[0] && f[0] != DdsId2[0];
    UnsignedIsRaw(f);
  }

  /** readPVMvolume on a scaled file reaches Assemble with the header it
      reads back, at the voxels. */
  lemma ScaledParses(version: nat, w: nat, h: nat, z: nat, sx: nat, sy: nat, sz: nat, c: nat,
                     body: seq<byte>, slots: Slots, wrap: bool, q: nat, p2: nat)
    requires version == 2 || version == 3
    requires 1 <= w < WORD && 1 <= h < WORD && 1 <= z < WORD && 1 <= c < WORD
    requires sx >= 1 && sy >= 1 && sz >= 1 && (slots.components || c == 1)
    requires q == 5 + |DimsLine(w, h, z)| && p2 == q + |ScalesLine(sx, sy, sz)| + |CountLine(c)|
    ensures var d := ScaledFile(version, w, h, z, sx, sy, sz, c, body) + [0];
      && At(d, p2, body) && |d| == p2 + |body| + 1
      && Parse(ScaledFile(version, w, h, z, sx, sy, sz, c, body), slots, wrap)
         == Assemble(d, Header(version, w, h, z, WholeScales(sx, sy, sz), q), c, p2, VoxelBytes(w, h, z, c, wrap), slots)
  {
    var e0 := 5 + |Decimal(w)|;
    var e1 := e0 + 1 + |Decimal(h)|;
    var e2 := e1 + 1 + |Decimal(z)|;
    var f0 := q + |Decimal(sx)|;
    var f1 := f0 + 1 + |Decimal(sy)|;
    var f2 := f1 + 1 + |Decimal(sz)|;
    var p1 := f2 + 1;
    var e3 := p1 + |Decimal(c)|;
    var f := ScaledFile(version, w, h, z, sx, sy, sz, c, body);
    var d := f + [0];
    var hd := Header(version, w, h, z, WholeScales(sx, sy, sz), q);
    FileStart(version, w, h, z, sx, sy, sz, c, body);
    FileLines(version, w, h, z, sx, sy, sz, c, body, e0, e1, e2, q, f0, f1, f2, p1, e3, p2);
    HeaderOfLines(d, version, w, h, z, sx, sy, sz, c, e0, e1, e2, q, f0, f1, f2, p1, e3, p2);
    BodyOfLines(d, hd, sx, sy, sz, c, f0, f1, f2, p1, e3, p2, slots, wrap);
    ParseFrom(f, slots, wrap, version, hd, Assemble(d, hd, c, p2, VoxelBytes(w, h, z, c, wrap), slots));
  }

  /** readPVMvolume on a scaled file once its header and its body are known. */
  lemma ParseFrom(f: seq<byte>, slots: Slots, wrap: bool, version: nat, hd: Header, r: Outcome<Volume>)
    requires DdsOrRaw(f) == Ok(f) && |f| >= 5 && Version(f) == Some(version) && 2 <= version <= 3
    requires Header23(f + [0], version) == Ok(hd) && ParseBody(f + [0], hd, slots, wrap) == r
    ensures Parse(f, slots, wrap) == r
  {
  }

  /** readPVMvolume on a version 2 file: the header and the scales read back,
      and the file is accepted exactly when its voxels fill the size the
      reader computes. */
  lemma Pvm2FileParses(w: nat, h: nat, z: nat, sx: nat, sy: nat, sz: nat, c: nat,
                       voxels: seq<byte>, slots: Slots, wrap: bool)
    requires 1 <= w < WORD && 1 <= h < WORD && 1 <= z < WORD && 1 <= c < WORD
    requires sx >= 1 && sy >= 1 && sz >= 1 && (slots.components || c == 1)
    ensures Parse(ScaledFile(2, w, h, z, sx, sy, sz, c, voxels), slots, wrap)
         == if |voxels| == VoxelBytes(w, h, z, c, wrap)
            then Ok(Volume2(w, h, z, c, WholeScales(sx, sy, sz), voxels, slots)) else Fatal
  {
    var q := 5 + |DimsLine(w, h, z)|;
    var p2 := q + |ScalesLine(sx, sy, sz)| + |CountLine(c)|;
    var d := ScaledFile(2, w, h, z, sx, sy, sz, c, voxels) + [0];
    var hd := Header(2, w, h, z, WholeScales(sx, sy, sz), q);
    ScaledParses(2, w, h, z, sx, sy, sz, c, voxels, slots, wrap, q, p2);
    Assemble2(d, hd, c, p2, voxels, VoxelBytes(w, h, z, c, wrap), slots);
  }

  /** readPVMvolume on a version 3 file whose voxels fill the size the reader
      computes and whose four trailer strings hold no NUL: the header and
      the scales read back, the returned buffer is the voxels and the
      trailer, and each non-empty string reaches the slot the caller
      passes. */
  lemma Pvm3FileParses(w: nat, h: nat, z: nat, sx: nat, sy: nat, sz: nat, c: nat,
                       voxels: seq<byte>, strs: seq<seq<byte>>, slots: Slots, wrap: bool)
    requires 1 <= w < WORD && 1 <= h < WORD && 1 <= z < WORD && 1 <= c < WORD
    requires sx >= 1 && sy >= 1 && sz >= 1 && (slots.components || c == 1)
    requires |voxels| == VoxelBytes(w, h, z, c, wrap)
    requires |strs| == 4 && forall k :: 0 <= k < 4 ==> NoNul(strs[k])
    ensures Parse(ScaledFile(3, w, h, z, sx, sy, sz, c, voxels + Joined(strs)), slots, wrap)
         == Ok(Volume3(w, h, z, c, WholeScales(sx, sy, sz), voxels, strs, slots))
  {
    var q := 5 + |DimsLine(w, h, z)|;
    var p2 := q + |ScalesLine(sx, sy, sz)| + |CountLine(c)|;
    var d := ScaledFile(3, w, h, z, sx, sy, sz, c, voxels + Joined(strs)) + [0];
    var hd := Header(3, w, h, z, WholeScales(sx, sy, sz), q);
    ScaledParses(3, w, h, z, sx, sy, sz, c, voxels + Joined(strs), slots, wrap, q, p2);
    Assemble3(d, hd, c, p2, voxels, strs, slots);
  }
}
