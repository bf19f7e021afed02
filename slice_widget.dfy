/** The slice view (Widgets/SliceWidget.h, Widgets/SliceWidget.cpp): the
    index of the slice shown, kept inside the depth of the shared volume,
    and the 256-entry grey colour table the view paints plain densities
    with. */
module Slices {
  import opened Machine
  import opened QtValues
  import opened Volumes

  /** The slice setSlice(z) stores for a volume of the given depth:
      qBound(0, z, (int)depth - 1). */
  function ClampedSlice(z: int, depth: u32): (s: u32)
    ensures 1 <= depth < 0x8000_0000 ==> s < depth
    ensures 0 <= z < depth < 0x8000_0000 ==> s == z
    ensures z < 0 || depth <= 1 || depth >= 0x8000_0000 ==> s == 0
    ensures 1 <= depth < 0x8000_0000 && z >= depth ==> s == depth - 1
  {
    Bound(0, z, AsSigned(depth) - 1)
  }

  /** What setSlice(z) returns: false when z < 0 or z >= (int)depth - 1. */
  function SliceAccepted(z: int, depth: u32): (ok: bool)
  {
    !(z < 0 || z >= AsSigned(depth) - 1)
  }

  /** setSlice reports false for the last slice although it stores it, and
      true exactly for the slices below the last one. */
  lemma LastSliceReported(z: int, depth: u32)
    requires 1 <= depth < 0x8000_0000
    ensures SliceAccepted(z, depth) <==> 0 <= z < depth - 1
    ensures ClampedSlice(depth - 1, depth) == depth - 1 && !SliceAccepted(depth - 1, depth)
  {
  }

  /** The slice after a wheel step from slice: setSlice(slice - 1) for a
      negative delta and setSlice(slice + 1) otherwise, with the unsigned
      sum passed on as an int. */
  function WheelSlice(slice: u32, delta: int, depth: u32): (s: u32)
    ensures slice < depth < 0x8000_0000 && delta < 0 ==>
      s == if slice == 0 then 0 else slice - 1
    ensures slice < depth < 0x8000_0000 && delta >= 0 ==>
      s == if slice + 1 < depth then slice + 1 else depth - 1
  {
    var next := if delta < 0 then slice - 1 else slice + 1;
    ClampedSlice(AsSigned(next), depth)
  }

  /** The grey level qRgb(i, i, i): opaque, with red, green and blue all i. */
  lemma GreyLevel(i: byte)
    ensures var c := Rgb(i, i, i); Red(c) == i && Green(c) == i && Blue(c) == i && Alpha(c) == 255
  {
    RgbaChannels(i, i, i, 255);
  }

  class SliceWidget {
    /** The volume the view shows (Volume &vol). */
    const vol: Volume
    var slice: u32
    var grayscale: seq<u32>

    /** SliceWidget(volume): slice 0, and a table whose entry i is qRgb(i, i, i). */
    constructor(volume: Volume)
      ensures vol == volume && slice == 0
      ensures |grayscale| == 256 && forall i :: 0 <= i < 256 ==> grayscale[i] == Rgb(i, i, i)
    {
      vol := volume;
      slice := 0;
      grayscale := [];
      new;
      var i := 0;
      while i < 256
        invariant 0 <= i <= 256 && |grayscale| == i && slice == 0
        invariant forall k :: 0 <= k < i ==> grayscale[k] == Rgb(k, k, k)
      {
        grayscale := grayscale + [Rgb(i, i, i)];
        i := i + 1;
      }
    }

    /** setSlice(z): stores z bounded into the volume's slices, returns
        whether z lay below the last slice, and emits sliceChanged with z
        as given. */
    method SetSlice(z: int) returns (ok: bool, emitted: int)
      modifies this
      ensures slice == ClampedSlice(z, vol.depth) && grayscale == old(grayscale)
      ensures ok == SliceAccepted(z, vol.depth) && emitted == z
    {
      slice := Bound(0, z, AsSigned(vol.depth) - 1);
      emitted := z;
      if z < 0 || z >= AsSigned(vol.depth) - 1 {
        ok := false;
      } else {
        ok := true;
      }
    }

    /** wheelEvent: one slice back for a negative delta, one forward
        otherwise, through setSlice. */
    method WheelEvent(delta: int) returns (emitted: int)
      modifies this
      ensures slice == WheelSlice(old(slice), delta, vol.depth) && grayscale == old(grayscale)
      ensures delta < 0 && old(slice) == 0 ==> slice == 0
    {
      var ok;
      if delta < 0 {
        ok, emitted := SetSlice(AsSigned(slice - 1));
      } else {
        ok, emitted := SetSlice(AsSigned(slice + 1));
      }
    }
  }
}
