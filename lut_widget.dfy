/** The transfer-function editor (Widgets/LutWidget.h, Widgets/LutWidget.cpp):
    a table of 4096 QRgb colours edited in place, 4096 histogram bins with
    their maximum kept in one extra entry, and the brush the mouse paints
    with. The colours in the table keep the blue channel where a QRgb has
    red and the red channel where it has blue, as the widget writes them. */
module Luts {
  import opened Machine
  import opened QtValues

  /** The number of table entries and of histogram bins. */
  const LUT_SIZE: nat := 4096
  /** The index of the last entry. */
  const LAST_ENTRY: nat := 4095

  /** The red, green and blue of a QColor. */
  datatype Color = Color(red: byte, green: byte, blue: byte)

  /** resetLut's colour for the lowest densities: 0 << 24 | 255 << 16 | 255 << 8 | 255. */
  const CLEAR_WHITE: u32 := 0x00FF_FFFF
  /** resetLut's colour for the middle densities: 9 << 24 | 26 << 16 | 130 << 8 | 192. */
  const FAINT_TINT: u32 := 0x091A_82C0
  /** resetLut's colour for the high densities: 255 << 24 | 255 << 16 | 255 << 8 | 255. */
  const OPAQUE_WHITE: u32 := 0xFFFF_FFFF

  /** The entry resetLut writes at index k, for the indices it writes. */
  function PresetEntry(k: int): (c: u32)
    requires 0 <= k < 4078
  {
    if k < 556 then CLEAR_WHITE else if k < 1687 then FAINT_TINT else OPAQUE_WHITE
  }

  /** The three preset colours as qRgba values: transparent white, a faint
      tint of opacity 9, and opaque white. */
  lemma PresetColours()
    ensures CLEAR_WHITE == Rgba(255, 255, 255, 0)
    ensures FAINT_TINT == Rgba(26, 130, 192, 9)
    ensures OPAQUE_WHITE == Rgb(255, 255, 255)
  {
  }

  /** The preset table is transparent below index 556, faintly opaque up to
      1686 and fully opaque from 1687: its opacity never falls as the index
      rises. */
  lemma PresetOpacityRises(k: int, j: int)
    requires 0 <= k <= j < 4078
    ensures Alpha(PresetEntry(k)) <= Alpha(PresetEntry(j))
    ensures Alpha(PresetEntry(k)) == if k < 556 then 0 else if k < 1687 then 9 else 255
  {
    assert Alpha(CLEAR_WHITE) == 0;
    assert Alpha(FAINT_TINT) == 9;
    assert Alpha(OPAQUE_WHITE) == 255;
  }

  /** Whether updateLutRange(x1, x2, ...) writes entry k: k lies between the
      bounded ends of a non-empty range. */
  predicate Painted(x1: int, x2: int, k: int)
  {
    x1 <= x2 && Bound(0, x1, LAST_ENTRY) <= k <= Bound(0, x2, LAST_ENTRY)
  }

  /** The entries painted are exactly the bounded values qBound(0, x, 4095)
      of the x in [x1, x2]: the clamped range leaves no gap and never goes
      outside the table. */
  lemma PaintedIsBoundedRange(x1: int, x2: int, k: int)
    ensures Painted(x1, x2, k) ==> 0 <= k < LUT_SIZE
    ensures Painted(x1, x2, k) <==> exists x :: x1 <= x <= x2 && Bound(0, x, LAST_ENTRY) == k
  {
    if Painted(x1, x2, k) {
      if x1 <= k <= x2 {
        assert Bound(0, k, LAST_ENTRY) == k;
      } else if k < x1 {
        assert Bound(0, x1, LAST_ENTRY) == k;
      } else {
        assert Bound(0, x2, LAST_ENTRY) == k;
      }
    }
    if x :| x1 <= x <= x2 && Bound(0, x, LAST_ENTRY) == k {
      BoundMonotone(0, x1, x, LAST_ENTRY);
      BoundMonotone(0, x, x2, LAST_ENTRY);
    }
  }

  /** The brush width after a wheel step: one wider on a positive delta,
      otherwise one narrower unless it is already 0 or less. */
  function WheelWidth(width: int, delta: int): (w: int)
    ensures -1 <= w - width <= 1
    ensures w > width <==> delta > 0
    ensures width >= 0 ==> w >= 0
  {
    if delta > 0 then width + 1 else if width > 0 then width - 1 else width
  }

  /** No sequence of wheel steps takes a width of at least 0 below 0. */
  lemma {:induction false} WheelKeepsWidth(width: int, deltas: seq<int>)
    requires width >= 0
    ensures WheelWidths(width, deltas) >= 0
    decreases |deltas|
  {
    if |deltas| > 0 {
      WheelKeepsWidth(WheelWidth(width, deltas[0]), deltas[1..]);
    }
  }

  /** The brush width after the wheel steps deltas, in order. */
  function WheelWidths(width: int, deltas: seq<int>): int
    decreases |deltas|
  {
    if |deltas| == 0 then width else WheelWidths(WheelWidth(width, deltas[0]), deltas[1..])
  }

  class LutWidget {
    /** lut = new QRgb[4096]. */
    const lut: array<u32>
    /** histogram = new unsigned[4097]: the bins, then their maximum. */
    const histogram: array<u32>
    var brushWidth: int
    var brushColor: Color

    /** The table and the histogram have their fixed sizes. */
    predicate Valid()
    {
      lut.Length == LUT_SIZE && histogram.Length == LUT_SIZE + 1
    }

    /** LutWidget(): an all-zero table and histogram whose maximum entry is 1,
        a white brush of width 1. */
    constructor()
      ensures Valid() && fresh(lut) && fresh(histogram)
      ensures forall k :: 0 <= k < LUT_SIZE ==> lut[k] == 0 && histogram[k] == 0
      ensures histogram[LUT_SIZE] == 1
      ensures brushWidth == 1 && brushColor == Color(255, 255, 255)
    {
      lut := new u32[LUT_SIZE];
      histogram := new u32[LUT_SIZE + 1];
      brushWidth := 1;
      brushColor := Color(255, 255, 255);
      new;
      var x := 0;
      while x < LUT_SIZE
        invariant 0 <= x <= LUT_SIZE
        invariant forall k :: 0 <= k < x ==> lut[k] == 0 && histogram[k] == 0
        invariant brushWidth == 1 && brushColor == Color(255, 255, 255)
      {
        lut[x] := 0;
        histogram[x] := 0;
        x := x + 1;
      }
      histogram[LUT_SIZE] := 1;
    }

    /** setBrushColor(c). */
    method SetBrushColor(c: Color)
      modifies this
      ensures brushColor == c && brushWidth == old(brushWidth)
    {
      brushColor := c;
    }

    /** setBrushWidth(w). */
    method SetBrushWidth(w: int)
      modifies this
      ensures brushWidth == w && brushColor == old(brushColor)
    {
      brushWidth := w;
    }

    /** wheelEvent: steps the brush width and returns the width
        brushWidthChanged is emitted with. */
    method WheelEvent(delta: int) returns (emitted: int)
      modifies this
      ensures brushWidth == WheelWidth(old(brushWidth), delta) && emitted == brushWidth
      ensures brushColor == old(brushColor)
      ensures old(brushWidth) >= 0 ==> brushWidth >= 0
    {
      if delta > 0 {
        brushWidth := brushWidth + 1;
      } else if brushWidth > 0 {
        brushWidth := brushWidth - 1;
      }
      emitted := brushWidth;
    }

    /** resetLut: the three preset bands; entries 4078 to 4095 keep their colours. */
    method ResetLut()
      requires Valid()
      modifies lut
      ensures forall k :: 0 <= k < 4078 ==> lut[k] == PresetEntry(k)
      ensures forall k :: 4078 <= k < LUT_SIZE ==> lut[k] == old(lut[k])
    {
      var i := 0;
      while i < 556
        invariant 0 <= i <= 556
        invariant forall k :: 0 <= k < i ==> lut[k] == CLEAR_WHITE
        invariant forall k :: 556 <= k < LUT_SIZE ==> lut[k] == old(lut[k])
      {
        lut[i] := CLEAR_WHITE;
        i := i + 1;
      }
      while i < 1687
        invariant 556 <= i <= 1687
        invariant forall k :: 0 <= k < 556 ==> lut[k] == CLEAR_WHITE
        invariant forall k :: 556 <= k < i ==> lut[k] == FAINT_TINT
        invariant forall k :: 1687 <= k < LUT_SIZE ==> lut[k] == old(lut[k])
      {
        lut[i] := FAINT_TINT;
        i := i + 1;
      }
      while i < 4078
        invariant 1687 <= i <= 4078
        invariant forall k :: 0 <= k < 1687 ==> lut[k] == PresetEntry(k)
        invariant forall k :: 1687 <= k < i ==> lut[k] == OPAQUE_WHITE
        invariant forall k :: 4078 <= k < LUT_SIZE ==> lut[k] == old(lut[k])
      {
        lut[i] := OPAQUE_WHITE;
        i := i + 1;
      }
    }

    /** updateLutRange(x1, x2, y, c): every x from x1 to x2 paints entry
        qBound(0, x, 4095) with qRgba(c.blue, c.green, c.red, alpha), where
        alpha is the opacity the height y gives; nothing else changes. */
    method UpdateLutRange(x1: int, x2: int, alpha: int, c: Color)
      requires Valid()
      modifies lut
      ensures forall k :: 0 <= k < LUT_SIZE ==>
        lut[k] == if Painted(x1, x2, k) then Rgba(c.blue, c.green, c.red, alpha) else old(lut[k])
    {
      var colour := Rgba(c.blue, c.green, c.red, alpha);
      var x := x1;
      while x <= x2
        invariant x == x1 || x1 <= x <= x2 + 1
        invariant forall k :: 0 <= k < LUT_SIZE ==>
          lut[k] == if Painted(x1, x - 1, k) then colour else old(lut[k])
        decreases x2 - x
      {
        var at := Bound(0, x, LAST_ENTRY);
        BoundMonotone(0, x1, x, LAST_ENTRY);
        BoundStep(0, x - 1, LAST_ENTRY);
        lut[at] := colour;
        x := x + 1;
      }
    }

    /** The last step of calculateHistogram: histogram[4096] becomes the
        largest of the bins, which are left as they are. */
    method HistogramMax()
      requires Valid()
      modifies histogram
      ensures histogram[..LUT_SIZE] == old(histogram[..LUT_SIZE])
      ensures histogram[LUT_SIZE] == RunMax(histogram[..LUT_SIZE], 0)
      ensures forall k :: 0 <= k < LUT_SIZE ==> histogram[k] <= histogram[LUT_SIZE]
      ensures exists k :: 0 <= k < LUT_SIZE && histogram[k] == histogram[LUT_SIZE]
    {
      ghost var bins := histogram[..LUT_SIZE];
      histogram[LUT_SIZE] := 0;
      var i := 0;
      while i < LUT_SIZE
        invariant 0 <= i <= LUT_SIZE
        invariant histogram[..LUT_SIZE] == bins
        invariant histogram[LUT_SIZE] == RunMax(bins[..i], 0)
      {
        RunStep(bins, i, 0, 0);
        histogram[LUT_SIZE] := Max(histogram[LUT_SIZE], histogram[i]);
        i := i + 1;
      }
      assert bins[..i] == bins;
      MaxIsAttained(bins);
    }
  }

  /** The running maximum from 0 of non-empty bins bounds every bin and is one of them. */
  lemma MaxIsAttained(bins: seq<nat>)
    requires |bins| > 0
    ensures forall k :: 0 <= k < |bins| ==> bins[k] <= RunMax(bins, 0)
    ensures exists k :: 0 <= k < |bins| && bins[k] == RunMax(bins, 0)
  {
    RunMaxIsMaximum(bins, 0);
    if RunMax(bins, 0) == 0 {
      assert bins[0] == 0;
    }
  }
}
