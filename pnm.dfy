/** readPNMimage (Formats/DDSLoader.cpp:375-440): a binary Netpbm image, P5
    (grey, 8 or 16 bits) or P6 (RGB), possibly wrapped in a DDS stream. */
module Pnm {
  import opened Machine
  import opened CText
  import opened DdsContainer

  /** maxstr: the header fields must fit in a buffer of this size. */
  const MaxStr: nat := 100

  datatype Image = Image(width: u32, height: u32, components: nat, pixels: seq<byte>)

  /** sscanf(str, "P%1d\n", &pnmtype) on the first three bytes, NUL-terminated. */
  function PnmType(d: seq<byte>): (r: Option<int>)
    requires |d| >= 3
    ensures r.Some? ==> d[0] == 'P' as byte && 0 <= r.value <= 9
  {
    var s := CString(d[..3], 0);
    if |s| >= 1 && s[0] == 'P' as byte then
      match ScanDigit(s, 1)
      case None => None
      case Some(x) => Some(x.value)
    else None
  }

  /** The loop over blank lines and '#' comments after the magic number: the
      position of the first byte of the size line. Running off the end of the
      buffer is fatal. */
  function SkipComments(d: seq<byte>, p: nat): (r: Outcome<nat>)
    requires p < |d|
    ensures !r.NotThisFormat?
    ensures r.Ok? ==> p <= r.value < |d| && d[r.value] != NEWLINE && d[r.value] != HASH
    decreases |d| - p
  {
    if d[p] == NEWLINE then
      if p + 1 >= |d| then Fatal else SkipComments(d, p + 1)
    else if d[p] == HASH then
      if p + 1 >= |d| then Fatal
      else match Find(d, p + 1, NEWLINE)
        case None => Fatal
        case Some(q) => SkipComments(d, q)
    else Ok(p)
  }

  /** The first space or newline from p on. */
  function Delimiter(d: seq<byte>, p: nat): (r: Option<nat>)
    requires p <= |d|
    ensures r.Some? ==> p <= r.value < |d| && (d[r.value] == SPACE || d[r.value] == NEWLINE)
    ensures r.Some? ==> forall k :: p <= k < r.value ==> d[k] != SPACE && d[k] != NEWLINE
    ensures r.None? ==> forall k :: p <= k < |d| ==> d[k] != SPACE && d[k] != NEWLINE
    decreases |d| - p
  {
    if p == |d| then None
    else if d[p] == SPACE || d[p] == NEWLINE then Some(p)
    else Delimiter(d, p + 1)
  }

  /** One header field: up to its delimiter and past it; the buffer must go on. */
  function FieldEnd(d: seq<byte>, p: nat): (r: Outcome<nat>)
    requires p < |d|
    ensures !r.NotThisFormat?
    ensures r.Ok? ==> p < r.value < |d|
  {
    match Delimiter(d, p)
    case None => Fatal
    case Some(q) => if q + 1 >= |d| then Fatal else Ok(q + 1)
  }

  /** The end of the three header fields (width, height, maxval) from p. */
  function HeaderEnd(d: seq<byte>, p: nat): (r: Outcome<nat>)
    requires p < |d|
    ensures !r.NotThisFormat?
    ensures r.Ok? ==> p < r.value < |d|
  {
    match FieldEnd(d, p)
    case Ok(p2) =>
      (match FieldEnd(d, p2)
       case Ok(p3) => FieldEnd(d, p3)
       case _ => Fatal)
    case _ => Fatal
  }

  /** The component count for the type and maxval: P5 with 255 is grey,
      P5 with 32767 or 65535 is 16-bit grey, P6 with 255 is RGB. */
  function Components(pnmtype: int, maxval: int): (r: Option<nat>)
    ensures r.Some? ==> 1 <= r.value <= 3
    ensures r.Some? <==> (pnmtype == 5 && (maxval == 255 || maxval == 32767 || maxval == 65535))
                         || (pnmtype == 6 && maxval == 255)
  {
    if pnmtype == 5 && maxval == 255 then Some(1)
    else if pnmtype == 5 && (maxval == 32767 || maxval == 65535) then Some(2)
    else if pnmtype == 6 && maxval == 255 then Some(3)
    else None
  }

  /** The byte count the size check compares: the unsigned int product, which
      wraps modulo 2^32 (`wrap`), or the true product. */
  function PixelBytes(width: nat, height: nat, components: nat, wrap: bool): nat
  {
    if wrap then Wrap32(width * height * components) else width * height * components
  }

  /** The width, height and maxval that sscanf(str, "%d %d\n%d\n", ...)
      reads from the header text d[p1..p2] (which the C copies into a
      NUL-terminated buffer): each %d value is stored as a 32-bit int, whose
      bits width and height read as unsigned ints. */
  function HeaderValues(d: seq<byte>, p1: nat, p2: nat): (r: Option<(u32, u32, int)>)
    requires p1 <= p2 <= |d|
    ensures r.Some? ==> -0x8000_0000 <= r.value.2 < 0x8000_0000
  {
    var v := ScanInts(CString(d[p1..p2], 0), 0, 3);
    if v.None? then None
    else Some((Wrap32(v.value.value[0]), Wrap32(v.value.value[1]), AsSigned(v.value.value[2])))
  }

  /** readPNMimage on the buffer d after its magic number, from the size line at p1. */
  function ParseBody(d: seq<byte>, pnmtype: int, p1: nat, wrap: bool): (r: Outcome<Image>)
    requires p1 < |d|
    ensures !r.NotThisFormat?
    ensures r.Ok? ==> 1 <= r.value.width && 1 <= r.value.height && 1 <= r.value.components <= 3
    ensures r.Ok? ==> |r.value.pixels| == PixelBytes(r.value.width, r.value.height, r.value.components, wrap)
  {
    var h := HeaderEnd(d, p1);
    if !h.Ok? || h.value - p1 >= MaxStr then Fatal
    else
      var p2 := h.value;
      var v := HeaderValues(d, p1, p2);
      if v.None? then Fatal
      else
        var (width, height, maxval) := v.value;
        var c := Components(pnmtype, maxval);
        if width < 1 || height < 1 || c.None? then Fatal
        else if |d| != p2 + PixelBytes(width, height, c.value, wrap) then Fatal
        else Ok(Image(width, height, c.value, d[p2..]))
  }

  /** readPNMimage on the buffer the DDS or raw reader produced. */
  function ParseImage(d: seq<byte>, wrap: bool): (r: Outcome<Image>)
  {
    if |d| < 4 then NotThisFormat
    else
      var pnmtype := PnmType(d);
      if pnmtype.None? then NotThisFormat
      else
        var p1 := SkipComments(d, 3);
        if !p1.Ok? then Fatal else ParseBody(d, pnmtype.value, p1.value, wrap)
  }

  /** readPNMimage(filename, &width, &height, &components) on the file's bytes;
      `wrap` selects the unsigned size check as written (true) or the true
      product (false). */
  function Parse(file: seq<byte>, wrap: bool): (r: Outcome<Image>)
  {
    var data := DdsOrRaw(file);
    if data.Ok? then ParseImage(data.value, wrap)
    else if data.Fatal? then Fatal
    else NotThisFormat
  }

  /** readPNMimage as written. */
  function ReadPnm(file: seq<byte>): (r: Outcome<Image>)
    ensures r.Ok? ==> |r.value.pixels| == Wrap32(r.value.width * r.value.height * r.value.components)
  {
    Parse(file, true)
  }

  /** readPNMimage with the size check on the true product. */
  function ReadPnmChecked(file: seq<byte>): (r: Outcome<Image>)
    ensures r.Ok? ==> |r.value.pixels| == r.value.width * r.value.height * r.value.components
  {
    Parse(file, false)
  }

  /** An image whose product fits in 32 bits is read alike by both size checks. */
  lemma BodyAgreesBelowWord(d: seq<byte>, pnmtype: int, p1: nat, wrap: bool)
    requires p1 < |d|
    requires var r := ParseBody(d, pnmtype, p1, wrap);
      r.Ok? && r.value.width * r.value.height * r.value.components < WORD
    ensures ParseBody(d, pnmtype, p1, !wrap) == ParseBody(d, pnmtype, p1, wrap)
  {
    var p2 := HeaderEnd(d, p1).value;
    var (width, height, maxval) := HeaderValues(d, p1, p2).value;
    var c := Components(pnmtype, maxval).value;
    PixelBytesBelowWord(width, height, c);
  }

  lemma PixelBytesBelowWord(width: nat, height: nat, components: nat)
    requires width * height * components < WORD
    ensures PixelBytes(width, height, components, true) == PixelBytes(width, height, components, false)
  {
    MulNonNegative(width * height, components);
    SmallMod(width * height * components);
  }

  /** readPNMimage as written and with the true product agree on every image
      whose width * height * components fits in 32 bits, in both directions. */
  lemma CheckedAgreesBelowWord(file: seq<byte>, wrap: bool)
    requires var r := Parse(file, wrap);
      r.Ok? && r.value.width * r.value.height * r.value.components < WORD
    ensures Parse(file, !wrap) == Parse(file, wrap)
  {
    var d := DdsOrRaw(file).value;
    BodyAgreesBelowWord(d, PnmType(d).value, SkipComments(d, 3).value, wrap);
  }

  // ---------------------------------------------------------------------------
  // The wrapped size check

  /** "P5\n641 6700417\n255\n" and a single pixel byte: a grey image whose
      641 * 6700417 pixels are one more than 2^32. */
  const ShortImage: seq<byte> :=
    [80, 53, 10, 54, 52, 49, 32, 54, 55, 48, 48, 52, 49, 55, 10, 50, 53, 53, 10, 0]

  /** A header field of digits, and its delimiter, ends just past the delimiter. */
  lemma FieldOfDigits(d: seq<byte>, p: nat, e: nat)
    requires p <= e && e + 1 < |d| && (d[e] == SPACE || d[e] == NEWLINE)
    requires forall k :: p <= k < e ==> IsDigit(d[k])
    ensures FieldEnd(d, p) == Ok(e + 1)
  {
    DelimiterOver(d, p, e);
  }

  lemma {:induction false} DelimiterOver(d: seq<byte>, p: nat, q: nat)
    requires p <= q < |d| && (d[q] == SPACE || d[q] == NEWLINE)
    requires forall k :: p <= k < q ==> d[k] != SPACE && d[k] != NEWLINE
    ensures Delimiter(d, p) == Some(q)
    decreases q - p
  {
    if p < q {
      DelimiterOver(d, p + 1, q);
    }
  }

  /** A size line of digit runs a, b and c bytes long at p1, followed by at
      least one more byte, spans the three header fields. */
  lemma SizeLineFields(d: seq<byte>, p1: nat, a: nat, b: nat, c: nat)
    requires SizeLineShape(d, p1, a, b, c) && p1 + a + b + c + 3 < |d|
    ensures HeaderEnd(d, p1) == Ok(p1 + a + b + c + 3)
  {
    FieldOfDigits(d, p1, p1 + a);
    FieldOfDigits(d, p1 + a + 1, p1 + a + 1 + b);
    FieldOfDigits(d, p1 + a + b + 2, p1 + a + b + 2 + c);
  }

  /** sscanf reads such a size line as the values of its digit runs. */
  lemma SizeLineReads(d: seq<byte>, p1: nat, a: nat, b: nat, c: nat)
    requires SizeLineShape(d, p1, a, b, c)
    ensures var p2 := p1 + a + b + c + 3;
      HeaderValues(d, p1, p2) == Some((Wrap32(DigitsValue(d, p1, p1 + a)),
                                       Wrap32(DigitsValue(d, p1 + a + 1, p1 + a + 1 + b)),
                                       AsSigned(DigitsValue(d, p1 + a + b + 2, p1 + a + b + 2 + c))))
  {
    SliceIsCString(d, p1, a, b, c);
    SliceScan(d, p1, a, b, c);
    SliceDigits(d, p1, a, b, c);
  }

  lemma SliceIsCString(d: seq<byte>, p1: nat, a: nat, b: nat, c: nat)
    requires SizeLineShape(d, p1, a, b, c)
    ensures var h := d[p1..p1 + a + b + c + 3]; CString(h, 0) == h
  {
    var h := d[p1..p1 + a + b + c + 3];
    assert forall k :: 0 <= k < |h| ==> h[k] == d[p1 + k];
  }

  /** The values sscanf reads from the slice holding the size line. */
  lemma SliceScan(d: seq<byte>, p1: nat, a: nat, b: nat, c: nat)
    requires SizeLineShape(d, p1, a, b, c)
    ensures SizeLineShape(d[p1..p1 + a + b + c + 3], 0, a, b, c)
    ensures var h := d[p1..p1 + a + b + c + 3]; var v := ScanInts(h, 0, 3);
      && v.Some?
      && v.value.value[0] == DigitsValue(h, 0, a)
      && v.value.value[1] == DigitsValue(h, a + 1, a + 1 + b)
      && v.value.value[2] == DigitsValue(h, a + b + 2, a + b + 2 + c)
  {
    ShapeShift(d, p1, a, b, c);
    SizeLineValues(d[p1..p1 + a + b + c + 3], a, b, c);
  }

  /** The digit runs of the slice are worth what they are worth in place. */
  lemma SliceDigits(d: seq<byte>, p1: nat, a: nat, b: nat, c: nat)
    requires SizeLineShape(d, p1, a, b, c)
    ensures SizeLineShape(d[p1..p1 + a + b + c + 3], 0, a, b, c)
    ensures var h := d[p1..p1 + a + b + c + 3];
      && DigitsValue(h, 0, a) == DigitsValue(d, p1, p1 + a)
      && DigitsValue(h, a + 1, a + 1 + b) == DigitsValue(d, p1 + a + 1, p1 + a + 1 + b)
      && DigitsValue(h, a + b + 2, a + b + 2 + c) == DigitsValue(d, p1 + a + b + 2, p1 + a + b + 2 + c)
  {
    var p2 := p1 + a + b + c + 3;
    ShapeShift(d, p1, a, b, c);
    DigitsValueShift(d, p1, p2, 0, a, p1, p1 + a);
    DigitsValueShift(d, p1, p2, a + 1, a + 1 + b, p1 + a + 1, p1 + a + 1 + b);
    DigitsValueShift(d, p1, p2, a + b + 2, a + b + 2 + c, p1 + a + b + 2, p1 + a + b + 2 + c);
  }

  /** The size line's shape seen from inside its own slice. */
  lemma ShapeShift(d: seq<byte>, p1: nat, a: nat, b: nat, c: nat)
    requires SizeLineShape(d, p1, a, b, c)
    ensures SizeLineShape(d[p1..p1 + a + b + c + 3], 0, a, b, c)
  {
    var h := d[p1..p1 + a + b + c + 3];
    assert forall k :: 0 <= k < |h| ==> h[k] == d[p1 + k];
  }

  /** The digits of a slice d[p..q] from i to j are worth what the digits of
      d from pi = p + i to pj = p + j are worth. */
  lemma {:induction false} DigitsValueShift(d: seq<byte>, p: nat, q: nat, i: nat, j: nat, pi: nat, pj: nat)
    requires p <= q <= |d| && i <= j <= q - p && pi == p + i && pj == p + j
    requires forall k :: pi <= k < pj ==> IsDigit(d[k])
    ensures DigitsValue(d[p..q], i, j) == DigitsValue(d, pi, pj)
    decreases j - i
  {
    if i < j {
      DigitsValueShift(d, p, q, i, j - 1, pi, pj - 1);
      assert d[p..q][j - 1] == d[pj - 1];
    }
  }

  /** The shape of a line "x y\nz\n" whose numbers are digit runs a, b and c
      bytes long, from p on. */
  predicate SizeLineShape(h: seq<byte>, p: nat, a: nat, b: nat, c: nat)
  {
    && 0 < a && 0 < b && 0 < c && p + a + b + c + 3 <= |h|
    && (forall k :: p <= k < p + a ==> IsDigit(h[k]))
    && (forall k :: p + a + 1 <= k < p + a + 1 + b ==> IsDigit(h[k]))
    && (forall k :: p + a + b + 2 <= k < p + a + b + 2 + c ==> IsDigit(h[k]))
    && h[p + a] == SPACE && h[p + a + 1 + b] == NEWLINE && h[p + a + b + 2 + c] == NEWLINE
  }

  lemma SizeLineLast(h: seq<byte>, a: nat, b: nat, c: nat)
    requires SizeLineShape(h, 0, a, b, c)
    ensures ScanInts(h, a + 1 + b, 1) == Some(Scanned([DigitsValue(h, a + b + 2, a + b + 2 + c)], a + b + 2 + c))
  {
    var e := a + b + 2 + c;
    assert ScanInts(h, e, 0) == Some(Scanned([], e));
    ScanIntDigits(h, a + 1 + b, a + b + 2, e);
    ScanIntsCons(h, a + 1 + b, 0, Scanned(DigitsValue(h, a + b + 2, e), e), Scanned([], e));
    assert [DigitsValue(h, a + b + 2, e)] + [] == [DigitsValue(h, a + b + 2, e)];
  }

  lemma SizeLineLastTwo(h: seq<byte>, a: nat, b: nat, c: nat)
    requires SizeLineShape(h, 0, a, b, c)
    ensures ScanInts(h, a, 2) == Some(Scanned([DigitsValue(h, a + 1, a + 1 + b)]
                                              + [DigitsValue(h, a + b + 2, a + b + 2 + c)], a + b + 2 + c))
  {
    var e := a + b + 2 + c;
    SizeLineLast(h, a, b, c);
    ScanIntDigits(h, a, a + 1, a + 1 + b);
    ScanIntsCons(h, a, 1, Scanned(DigitsValue(h, a + 1, a + 1 + b), a + 1 + b),
                 Scanned([DigitsValue(h, a + b + 2, e)], e));
  }

  /** sscanf over a line "x y\nz\n" of digit runs a, b and c bytes long. */
  lemma SizeLineValues(h: seq<byte>, a: nat, b: nat, c: nat)
    requires SizeLineShape(h, 0, a, b, c)
    ensures var v := ScanInts(h, 0, 3);
      && v.Some? && v.value.value[0] == DigitsValue(h, 0, a)
      && v.value.value[1] == DigitsValue(h, a + 1, a + 1 + b)
      && v.value.value[2] == DigitsValue(h, a + b + 2, a + b + 2 + c)
  {
    SizeLineLastTwo(h, a, b, c);
    ScanIntDigits(h, 0, 0, a);
    ThreeValues(h, a, DigitsValue(h, 0, a), ScanInts(h, a, 2).value);
  }

  /** Three %d conversions: the first one and then two more. */
  lemma ThreeValues(h: seq<byte>, a: nat, x: int, rest: Scanned<seq<int>>)
    requires a <= |h| && ScanInt(h, 0) == Some(Scanned(x, a))
    requires ScanInts(h, a, 2) == Some(rest)
    ensures var v := ScanInts(h, 0, 3);
      v.Some? && v.value.value[0] == x && v.value.value[1] == rest.value[0] && v.value.value[2] == rest.value[1]
  {
    ScanIntsCons(h, 0, 2, Scanned(x, a), rest);
  }

  /** ShortImage is raw P5 data whose size line starts at byte 3. */
  lemma ShortImageType()
    ensures DdsOrRaw(ShortImage) == Ok(ShortImage)
    ensures PnmType(ShortImage) == Some(5)
    ensures SkipComments(ShortImage, 3) == Ok(3)
  {
    ShortImageRaw();
    ShortImageMagic();
    assert ShortImage[3] == 54;
    NoComments(ShortImage, 3);
  }

  /** A size line that starts at p leaves nothing to skip. */
  lemma NoComments(d: seq<byte>, p: nat)
    requires p < |d| && d[p] != NEWLINE && d[p] != HASH
    ensures SkipComments(d, p) == Ok(p)
  {
  }

  lemma ShortImageRaw()
    ensures DdsOrRaw(ShortImage) == Ok(ShortImage)
  {
    assert ShortImage[0] != DdsId[0];
    UnsignedIsRaw(ShortImage);
  }

  lemma ShortImageMagic()
    ensures PnmType(ShortImage) == Some(5)
  {
    assert ShortImage[..3] == [80, 53, 10];
    assert CString([80, 53, 10], 0) == [80, 53, 10];
  }

  /** readPNMimage as written accepts ShortImage as a 641 x 6700417 grey image
      holding one byte of pixels, because the unsigned product wraps to 1;
      with the true product the size check rejects it. */
  lemma WrappedSizeAccepted()
    ensures ReadPnm(ShortImage) == Ok(Image(641, 6700417, 1, [0]))
    ensures ReadPnmChecked(ShortImage) == Fatal
  {
    ShortImageType();
    ShortImageBody();
  }

  /** The size check on ShortImage's header, with and without the wrap. */
  lemma ShortImageBody()
    ensures ParseBody(ShortImage, 5, 3, true) == Ok(Image(641, 6700417, 1, [0]))
    ensures ParseBody(ShortImage, 5, 3, false) == Fatal
  {
    ShortImageHeader();
    ShortProductWraps();
    ShortImagePixels();
  }

  lemma ShortImagePixels()
    ensures Components(5, 255) == Some(1)
    ensures |ShortImage| == 19 + 1 && ShortImage[19..] == [0]
  {
  }

  lemma ShortProductWraps()
    ensures PixelBytes(641, 6700417, 1, true) == 1
    ensures PixelBytes(641, 6700417, 1, false) == WORD + 1
  {
    assert 641 * 6700417 * 1 == WORD + 1;
    DivModUnique(WORD + 1, WORD, 1, 1);
  }

  /** The size line of ShortImage reads as 641, 6700417 and 255. */
  lemma ShortImageHeader()
    ensures HeaderEnd(ShortImage, 3) == Ok(19)
    ensures HeaderValues(ShortImage, 3, 19) == Some((641, 6700417, 255))
  {
    ShortImageShape();
    SizeLineFields(ShortImage, 3, 3, 7, 3);
    SizeLineReads(ShortImage, 3, 3, 7, 3);
    ShortImageNumbers();
  }

  /** The size line of ShortImage is "641 6700417\n255\n". */
  lemma ShortImageShape()
    ensures SizeLineShape(ShortImage, 3, 3, 7, 3)
  {
  }

  lemma ShortImageNumbers()
    ensures DigitsValue(ShortImage, 3, 6) == 641
    ensures DigitsValue(ShortImage, 7, 14) == 6700417
    ensures DigitsValue(ShortImage, 15, 18) == 255
    ensures Wrap32(641) == 641 && Wrap32(6700417) == 6700417 && AsSigned(255) == 255
  {
    ShortImageWidth();
    ShortImageHeight();
    ShortImageMaxval();
    SmallMod(641);
    SmallMod(6700417);
  }

  lemma ShortImageWidth()
    ensures DigitsValue(ShortImage, 3, 6) == 641
  {
  }

  lemma ShortImageHeight()
    ensures DigitsValue(ShortImage, 7, 14) == 6700417
  {
  }

  lemma ShortImageMaxval()
    ensures DigitsValue(ShortImage, 15, 18) == 255
  {
  }

  // ---------------------------------------------------------------------------
  // Reading a well-formed file back

  /** The value of a run of decimal digits. */
  function Value(ds: seq<byte>): (v: nat)
    requires AllDigits(ds)
  {
    DigitsValue(ds, 0, |ds|)
  }

  /** The size line "<dw> <dh>\n<dm>\n". */
  function SizeText(dw: seq<byte>, dh: seq<byte>, dm: seq<byte>): (r: seq<byte>)
    ensures |r| == |dw| + |dh| + |dm| + 3
  {
    dw + ([SPACE] + (dh + ([NEWLINE] + (dm + [NEWLINE]))))
  }

  /** A binary Netpbm file whose size line holds the digit runs dw, dh and
      dm: "P<t>\n<dw> <dh>\n<dm>\n" followed by the pixels. */
  function PnmText(t: nat, dw: seq<byte>, dh: seq<byte>, dm: seq<byte>, pixels: seq<byte>): (f: seq<byte>)
    requires t <= 9
    ensures |f| == 3 + |dw| + |dh| + |dm| + 3 + |pixels|
  {
    [80, ZERO + t as byte, NEWLINE] + (SizeText(dw, dh, dm) + pixels)
  }

  /** The file PnmText writes for the decimal renderings of w, h and maxval. */
  function PnmFile(t: nat, w: nat, h: nat, maxval: nat, pixels: seq<byte>): (f: seq<byte>)
    requires t <= 9
  {
    PnmText(t, Decimal(w), Decimal(h), Decimal(maxval), pixels)
  }

  /** The well-formed digit runs of a size line. */
  predicate SizeDigits(dw: seq<byte>, dh: seq<byte>, dm: seq<byte>)
  {
    && 0 < |dw| && 0 < |dh| && 0 < |dm|
    && AllDigits(dw) && AllDigits(dh) && AllDigits(dm)
  }

  /** A PnmText is raw data that announces type t, with no comment before
      its size line at byte 3. */
  lemma TextStart(t: nat, dw: seq<byte>, dh: seq<byte>, dm: seq<byte>, pixels: seq<byte>)
    requires t <= 9 && SizeDigits(dw, dh, dm)
    ensures var f := PnmText(t, dw, dh, dm, pixels);
      DdsOrRaw(f) == Ok(f) && PnmType(f) == Some(t) && SkipComments(f, 3) == Ok(3)
  {
    var f := PnmText(t, dw, dh, dm, pixels);
    var magic := [80, ZERO + t as byte, NEWLINE];
    assert f[0] != DdsId[0] && f[0] != DdsId2[0];
    UnsignedIsRaw(f);
    assert f[..3] == magic;
    assert CString(magic, 0) == magic by {
      assert CString(magic, 3) == [];
      assert CString(magic, 2) == [NEWLINE];
    }
    assert f[3] == dw[0];
    NoComments(f, 3);
  }

  /** f holds the digit runs dw, dh and dm from p1 on, delimited as in a
      size line, and then the pixels to its end. */
  predicate Pieces(f: seq<byte>, p1: nat, dw: seq<byte>, dh: seq<byte>, dm: seq<byte>, pixels: seq<byte>)
  {
    && |f| == p1 + |dw| + |dh| + |dm| + 3 + |pixels|
    && At(f, p1, dw) && f[p1 + |dw|] == SPACE
    && At(f, p1 + |dw| + 1, dh) && f[p1 + |dw| + 1 + |dh|] == NEWLINE
    && At(f, p1 + |dw| + |dh| + 2, dm) && f[p1 + |dw| + |dh| + 2 + |dm|] == NEWLINE
    && At(f, p1 + |dw| + |dh| + |dm| + 3, pixels)
  }

  /** f has from p1 on a size line of digit runs a, b and c bytes long that
      hold w, h and maxval, and then the pixels to its end. */
  predicate SizeLineThen(f: seq<byte>, p1: nat, a: nat, b: nat, c: nat, w: nat, h: nat, maxval: nat, pixels: seq<byte>)
  {
    && SizeLineShape(f, p1, a, b, c)
    && |f| == p1 + a + b + c + 3 + |pixels| && f[p1 + a + b + c + 3..] == pixels
    && DigitsValue(f, p1, p1 + a) == w
    && DigitsValue(f, p1 + a + 1, p1 + a + 1 + b) == h
    && DigitsValue(f, p1 + a + b + 2, p1 + a + b + 2 + c) == maxval
  }

  /** The pieces of a PnmText: the digit runs from byte 3 on, their
      delimiters, and the pixels. */
  lemma TextPieces(t: nat, dw: seq<byte>, dh: seq<byte>, dm: seq<byte>, pixels: seq<byte>)
    requires t <= 9
    ensures Pieces(PnmText(t, dw, dh, dm, pixels), 3, dw, dh, dm, pixels)
  {
    var f := PnmText(t, dw, dh, dm, pixels);
    var magic := [80, ZERO + t as byte, NEWLINE];
    var line := SizeText(dw, dh, dm);
    assert At(f, 0, magic + (line + pixels)) by {
      assert f[0..|f|] == f;
    }
    AtSplit(f, 0, magic, line + pixels);
    AtSplit(f, 3, line, pixels);
    SizeTextPieces(f, 3, dw, dh, dm);
  }

  /** The digit runs and delimiters of a size line at i. */
  lemma SizeTextPieces(d: seq<byte>, i: nat, dw: seq<byte>, dh: seq<byte>, dm: seq<byte>)
    requires At(d, i, SizeText(dw, dh, dm))
    ensures At(d, i, dw) && d[i + |dw|] == SPACE
    ensures At(d, i + |dw| + 1, dh) && d[i + |dw| + 1 + |dh|] == NEWLINE
    ensures At(d, i + |dw| + |dh| + 2, dm) && d[i + |dw| + |dh| + 2 + |dm|] == NEWLINE
  {
    SplitAfter(d, i, dw, SPACE, dh + ([NEWLINE] + (dm + [NEWLINE])));
    SplitAfter(d, i + |dw| + 1, dh, NEWLINE, dm + [NEWLINE]);
    AtSplit(d, i + |dw| + |dh| + 2, dm, [NEWLINE]);
    AtByte(d, i + |dw| + |dh| + 2 + |dm|, NEWLINE);
  }

  /** A digit run sitting in d at j is worth its value there. */
  lemma ValueAt(d: seq<byte>, j: nat, ds: seq<byte>)
    requires At(d, j, ds) && AllDigits(ds)
    ensures forall k :: j <= k < j + |ds| ==> IsDigit(d[k])
    ensures DigitsValue(d, j, j + |ds|) == Value(ds)
  {
    forall k | j <= k < j + |ds| ensures IsDigit(d[k]) {
      assert d[k] == ds[k - j];
    }
    DigitsValueShift(d, j, j + |ds|, 0, |ds|, j, j + |ds|);
  }

  /** Such a buffer has a size line of the digit runs' shape and values at p1. */
  lemma PiecesShape(f: seq<byte>, p1: nat, dw: seq<byte>, dh: seq<byte>, dm: seq<byte>, pixels: seq<byte>)
    requires SizeDigits(dw, dh, dm) && Pieces(f, p1, dw, dh, dm, pixels)
    ensures SizeLineThen(f, p1, |dw|, |dh|, |dm|, Value(dw), Value(dh), Value(dm), pixels)
  {
    ValueAt(f, p1, dw);
    ValueAt(f, p1 + |dw| + 1, dh);
    ValueAt(f, p1 + |dw| + |dh| + 2, dm);
  }

  /** A size line that ends the buffer: the third field loop runs off it. */
  lemma SizeLineAtEnd(d: seq<byte>, p1: nat, a: nat, b: nat, c: nat)
    requires SizeLineShape(d, p1, a, b, c) && p1 + a + b + c + 3 == |d|
    ensures HeaderEnd(d, p1) == Fatal
  {
    FieldOfDigits(d, p1, p1 + a);
    FieldOfDigits(d, p1 + a + 1, p1 + a + 1 + b);
    DelimiterOver(d, p1 + a + b + 2, p1 + a + b + 2 + c);
  }

  /** readPNMimage on a well-formed P<t> file with digit runs dw, dh and dm:
      it is accepted exactly when there are pixels, the size line fits in
      maxstr, the width and height stored in unsigned ints are at least 1,
      the type and maxval (stored as an int) name a known format, and the
      pixels fill the size the reader computes; it then hands back the width,
      height, component count and pixels. Every other such file is fatal. */
  lemma TextParses(t: nat, dw: seq<byte>, dh: seq<byte>, dm: seq<byte>, pixels: seq<byte>, wrap: bool)
    requires t <= 9 && SizeDigits(dw, dh, dm)
    ensures var (width, height) := (Wrap32(Value(dw)), Wrap32(Value(dh)));
      var c := Components(t, AsSigned(Value(dm)));
      Parse(PnmText(t, dw, dh, dm, pixels), wrap)
      == if && 0 < |pixels| && |dw| + |dh| + |dm| + 3 < MaxStr
            && width >= 1 && height >= 1 && c.Some?
            && |pixels| == PixelBytes(width, height, c.value, wrap)
         then Ok(Image(width, height, c.value, pixels))
         else Fatal
  {
    TextParsesAt(t, dw, dh, dm, pixels, wrap, 3);
  }

  /** TextParses, with the size line's position p1 = 3 as a parameter. */
  lemma TextParsesAt(t: nat, dw: seq<byte>, dh: seq<byte>, dm: seq<byte>, pixels: seq<byte>, wrap: bool, p1: nat)
    requires t <= 9 && SizeDigits(dw, dh, dm) && p1 == 3
    ensures var (width, height) := (Wrap32(Value(dw)), Wrap32(Value(dh)));
      var c := Components(t, AsSigned(Value(dm)));
      Parse(PnmText(t, dw, dh, dm, pixels), wrap)
      == if && 0 < |pixels| && |dw| + |dh| + |dm| + 3 < MaxStr
            && width >= 1 && height >= 1 && c.Some?
            && |pixels| == PixelBytes(width, height, c.value, wrap)
         then Ok(Image(width, height, c.value, pixels))
         else Fatal
  {
    TextStart(t, dw, dh, dm, pixels);
    TextPieces(t, dw, dh, dm, pixels);
    PiecesParse(PnmText(t, dw, dh, dm, pixels), t, p1, dw, dh, dm, pixels, wrap);
  }

  /** Parse on any raw buffer that announces type t, has no comment before
      byte p1 = 3, and holds there the digit runs dw, dh and dm delimited as
      in a size line, followed by the pixels to its end. */
  lemma PiecesParse(f: seq<byte>, t: nat, p1: nat, dw: seq<byte>, dh: seq<byte>, dm: seq<byte>, pixels: seq<byte>, wrap: bool)
    requires SizeDigits(dw, dh, dm) && p1 == 3 && Pieces(f, p1, dw, dh, dm, pixels)
    requires DdsOrRaw(f) == Ok(f) && PnmType(f) == Some(t) && SkipComments(f, p1) == Ok(p1)
    ensures var (width, height) := (Wrap32(Value(dw)), Wrap32(Value(dh)));
      var c := Components(t, AsSigned(Value(dm)));
      Parse(f, wrap)
      == if && 0 < |pixels| && |dw| + |dh| + |dm| + 3 < MaxStr
            && width >= 1 && height >= 1 && c.Some?
            && |pixels| == PixelBytes(width, height, c.value, wrap)
         then Ok(Image(width, height, c.value, pixels))
         else Fatal
  {
    PiecesShape(f, p1, dw, dh, dm, pixels);
    ShapeParses(f, t, p1, |dw|, |dh|, |dm|, Value(dw), Value(dh), Value(dm), pixels, wrap);
  }

  /** Parse on any raw buffer that announces type t, has no comment before
      byte p1 = 3, and has there a size line of digit runs a, b and c bytes
      long that hold w, h and maxval: the size line must be followed by
      pixels, fit in maxstr, and give a known format whose size the pixels
      fill. */
  lemma ShapeParses(f: seq<byte>, t: nat, p1: nat, a: nat, b: nat, c: nat, w: nat, h: nat, maxval: nat, pixels: seq<byte>, wrap: bool)
    requires p1 == 3 && SizeLineThen(f, p1, a, b, c, w, h, maxval, pixels)
    requires DdsOrRaw(f) == Ok(f) && PnmType(f) == Some(t) && SkipComments(f, p1) == Ok(p1)
    ensures var k := Components(t, AsSigned(maxval));
      Parse(f, wrap)
      == if && 0 < |pixels| && a + b + c + 3 < MaxStr
            && Wrap32(w) >= 1 && Wrap32(h) >= 1 && k.Some?
            && |pixels| == PixelBytes(Wrap32(w), Wrap32(h), k.value, wrap)
         then Ok(Image(Wrap32(w), Wrap32(h), k.value, pixels))
         else Fatal
  {
    RawBody(f, t, p1, wrap);
    if p1 + a + b + c + 3 < |f| {
      ShapeHeader(f, p1, a, b, c, w, h, maxval);
      BodyOfRuns(f, t, p1, a, b, c, Wrap32(w), Wrap32(h), AsSigned(maxval), wrap);
    } else {
      SizeLineAtEnd(f, p1, a, b, c);
    }
  }

  /** ParseBody once the three fields end at p2 and read as width, height and maxval. */
  lemma BodyOfHeader(d: seq<byte>, t: nat, p1: nat, p2: nat, width: u32, height: u32, maxval: int, wrap: bool)
    requires p1 < |d| && HeaderEnd(d, p1) == Ok(p2)
    requires HeaderValues(d, p1, p2) == Some((width, height, maxval))
    ensures var k := Components(t, maxval);
      ParseBody(d, t, p1, wrap)
      == if && p2 - p1 < MaxStr && width >= 1 && height >= 1 && k.Some?
            && |d| == p2 + PixelBytes(width, height, k.value, wrap)
         then Ok(Image(width, height, k.value, d[p2..]))
         else Fatal
  {
  }

  /** BodyOfHeader for fields of digit runs a, b and c bytes long. */
  lemma BodyOfRuns(d: seq<byte>, t: nat, p1: nat, a: nat, b: nat, c: nat, width: u32, height: u32, maxval: int, wrap: bool)
    requires p1 < |d| && HeaderEnd(d, p1) == Ok(p1 + a + b + c + 3)
    requires HeaderValues(d, p1, p1 + a + b + c + 3) == Some((width, height, maxval))
    ensures var k := Components(t, maxval);
      ParseBody(d, t, p1, wrap)
      == if && a + b + c + 3 < MaxStr && width >= 1 && height >= 1 && k.Some?
            && |d| == p1 + a + b + c + 3 + PixelBytes(width, height, k.value, wrap)
         then Ok(Image(width, height, k.value, d[p1 + a + b + c + 3..]))
         else Fatal
  {
    BodyOfHeader(d, t, p1, SizeEnd(p1, a, b, c), width, height, maxval, wrap);
  }

  /** The end of a size line of digit runs a, b and c bytes long from p1. */
  function SizeEnd(p1: nat, a: nat, b: nat, c: nat): (p2: nat)
    ensures p2 > p1 + a + b + c
  {
    p1 + a + b + c + 3
  }

  /** A raw buffer that announces type t and has no comment before byte p1
      is read from its size line at p1. */
  lemma RawBody(f: seq<byte>, t: nat, p1: nat, wrap: bool)
    requires p1 == 3 && p1 < |f|
    requires DdsOrRaw(f) == Ok(f) && PnmType(f) == Some(t) && SkipComments(f, p1) == Ok(p1)
    ensures Parse(f, wrap) == ParseBody(f, t, p1, wrap)
  {
  }

  /** The three field loops and sscanf over a size line followed by more
      bytes: they stop after it and read the values of its digit runs. */
  lemma ShapeHeader(f: seq<byte>, p1: nat, a: nat, b: nat, c: nat, w: nat, h: nat, maxval: nat)
    requires SizeLineShape(f, p1, a, b, c) && p1 + a + b + c + 3 < |f|
    requires DigitsValue(f, p1, p1 + a) == w
    requires DigitsValue(f, p1 + a + 1, p1 + a + 1 + b) == h
    requires DigitsValue(f, p1 + a + b + 2, p1 + a + b + 2 + c) == maxval
    ensures HeaderEnd(f, p1) == Ok(p1 + a + b + c + 3)
    ensures HeaderValues(f, p1, p1 + a + b + c + 3) == Some((Wrap32(w), Wrap32(h), AsSigned(maxval)))
  {
    SizeLineFields(f, p1, a, b, c);
    SizeLineReads(f, p1, a, b, c);
  }

  /** The decimal rendering of n is worth n. */
  lemma ValueOfDecimal(n: nat)
    ensures AllDigits(Decimal(n)) && Value(Decimal(n)) == n
  {
    DigitsValueOf(Decimal(n), 0, n);
  }

  /** readPNMimage on the file that writes w, h and maxval in decimal: the
      same rule as TextParses, with the numbers themselves. */
  lemma PnmFileParses(t: nat, w: nat, h: nat, maxval: nat, pixels: seq<byte>, wrap: bool)
    requires t <= 9
    ensures var c := Components(t, AsSigned(maxval));
      Parse(PnmFile(t, w, h, maxval, pixels), wrap)
      == if && 0 < |pixels| && |Decimal(w)| + |Decimal(h)| + |Decimal(maxval)| + 3 < MaxStr
            && Wrap32(w) >= 1 && Wrap32(h) >= 1 && c.Some?
            && |pixels| == PixelBytes(Wrap32(w), Wrap32(h), c.value, wrap)
         then Ok(Image(Wrap32(w), Wrap32(h), c.value, pixels))
         else Fatal
  {
    ValueOfDecimal(w);
    ValueOfDecimal(h);
    ValueOfDecimal(maxval);
    TextParses(t, Decimal(w), Decimal(h), Decimal(maxval), pixels, wrap);
  }

  /** A well-formed 8-bit grey image reads back: "P5\n<w> <h>\n255\n" with
      w * h pixel bytes, for any width and height of 1 to 9999. */
  lemma GreyFileParses(w: nat, h: nat, pixels: seq<byte>)
    requires 1 <= w < 10000 && 1 <= h < 10000 && |pixels| == w * h
    ensures ReadPnmChecked(PnmFile(5, w, h, 255, pixels)) == Ok(Image(w, h, 1, pixels))
  {
    PnmFileParses(5, w, h, 255, pixels, false);
    GreySize(w, h);
  }

  /** The numbers of such a grey file: its size line fits in maxstr, the
      width and height survive the unsigned ints, 255 selects one component,
      and the size check compares w * h. */
  lemma GreySize(w: nat, h: nat)
    requires 1 <= w < 10000 && 1 <= h < 10000
    ensures |Decimal(w)| + |Decimal(h)| + |Decimal(255)| + 3 < MaxStr
    ensures Wrap32(w) == w && Wrap32(h) == h && Components(5, AsSigned(255)) == Some(1)
    ensures PixelBytes(w, h, 1, false) == w * h && w * h > 0
  {
    assert Pow10(4) == 10000;
    DecimalBelow(w, 4);
    DecimalBelow(h, 4);
    assert |Decimal(255)| == 3;
    assert AsSigned(255) == 255;
    MulAtLeast(w, h);
  }

  // ---------------------------------------------------------------------------
  // The loops of readPNMimage

  /** The comment loop of readPNMimage, as its nested while loops. */
  method SkipHeaderComments(d: seq<byte>, start: nat) returns (r: Outcome<nat>)
    requires start < |d|
    ensures r == SkipComments(d, start)
  {
    var ptr := start;
    while d[ptr] == NEWLINE || d[ptr] == HASH
      invariant ptr < |d| && SkipComments(d, ptr) == SkipComments(d, start)
      decreases |d| - ptr
    {
      while d[ptr] == NEWLINE
        invariant ptr < |d| && SkipComments(d, ptr) == SkipComments(d, start)
        decreases |d| - ptr
      {
        ptr := ptr + 1;
        if ptr >= |d| {
          return Fatal;
        }
      }
      while d[ptr] == HASH
        invariant ptr < |d| && SkipComments(d, ptr) == SkipComments(d, start)
        decreases |d| - ptr
      {
        ghost var hash := ptr;
        ptr := ptr + 1;
        if ptr >= |d| {
          return Fatal;
        }
        while d[ptr] != NEWLINE
          invariant hash < ptr < |d| && Find(d, ptr, NEWLINE) == Find(d, hash + 1, NEWLINE)
          decreases |d| - ptr
        {
          ptr := ptr + 1;
          if ptr >= |d| {
            return Fatal;
          }
        }
      }
    }
    return Ok(ptr);
  }

  /** One of the three field loops of readPNMimage. */
  method ScanField(d: seq<byte>, start: nat) returns (r: Outcome<nat>)
    requires start < |d|
    ensures r == FieldEnd(d, start)
  {
    var ptr := start;
    while d[ptr] != NEWLINE && d[ptr] != SPACE
      invariant ptr < |d| && Delimiter(d, ptr) == Delimiter(d, start)
      decreases |d| - ptr
    {
      ptr := ptr + 1;
      if ptr >= |d| {
        return Fatal;
      }
    }
    ptr := ptr + 1;
    if ptr >= |d| {
      return Fatal;
    }
    return Ok(ptr);
  }

  /** The three field loops of readPNMimage, one after the other. */
  method ScanHeader(d: seq<byte>, p1: nat) returns (r: Outcome<nat>)
    requires p1 < |d|
    ensures r == HeaderEnd(d, p1)
  {
    r := ScanField(d, p1);
    if r.Ok? {
      r := ScanField(d, r.value);
      if r.Ok? {
        r := ScanField(d, r.value);
      }
    }
  }

  /** readPNMimage(filename, &width, &height, &components) as written, on the
      file's bytes. */
  method ReadPnmImage(file: seq<byte>) returns (r: Outcome<Image>)
    ensures r == ReadPnm(file)
  {
    var data := ReadDdsOrRaw(file);
    if !data.Ok? {
      return if data.Fatal? then Fatal else NotThisFormat;
    }
    var d := data.value;
    if |d| < 4 {
      return NotThisFormat;
    }
    var pnmtype := PnmType(d);
    if pnmtype.None? {
      return NotThisFormat;
    }
    var p1 := SkipHeaderComments(d, 3);
    if !p1.Ok? {
      return Fatal;
    }
    var p2 := ScanHeader(d, p1.value);
    if !p2.Ok? || p2.value - p1.value >= MaxStr {
      return Fatal;
    }
    var v := HeaderValues(d, p1.value, p2.value);
    if v.None? {
      return Fatal;
    }
    var (width, height, maxval) := v.value;
    var c := Components(pnmtype.value, maxval);
    if width < 1 || height < 1 || c.None? {
      return Fatal;
    }
    if |d| != p2.value + Wrap32(width * height * c.value) {
      return Fatal;
    }
    return Ok(Image(width, height, c.value, d[p2.value..]));
  }
}
