/** The volume the renderer and the slice view share (Volume.h, Volume.cpp):
    the dimensions, the bit depth, the bytes per cell and the voxel buffer,
    with clamped voxel addressing. A pointer into the buffer is modelled by
    its offset from the start of volData. */
module Volumes {
  import opened Machine
  import opened QtValues

  /** The byte offset of cell index i: C's unsigned product i * bytesPerCell. */
  function CellOffset(i: int, bytesPerCell: u32): (offset: u32)
    ensures 0 <= i * bytesPerCell < WORD ==> offset == i * bytesPerCell
  {
    Wrap32(i * bytesPerCell)
  }

  /** (int)n - 1, the upper bound voxelAt clamps a coordinate to: a dimension
      of 2^31 or more turns negative under the cast, and the coordinate is
      then clamped to 0. */
  function LastCoordinate(n: u32): (r: int)
    ensures n < 0x8000_0000 ==> r == n - 1
    ensures n >= 0x8000_0000 ==> r < 0
  {
    AsSigned(n) - 1
  }

  class Volume {
    var width: u32
    var height: u32
    var depth: u32
    var bitDepth: u32
    var bytesPerCell: u32
    var volData: array?<byte>

    /** Volume(): bit depth 8, one byte per cell, no data; the dimensions are
        left uninitialised by the C++ class and are not specified here. */
    constructor()
      ensures bitDepth == 8 && bytesPerCell == 1 && volData == null
    {
      width, height, depth := 0, 0, 0;
      bitDepth, bytesPerCell := 8, 1;
      volData := null;
    }

    /** The cell index voxelAt(x, y, z) addresses: each coordinate is first
        bounded into [0, (int)dimension - 1], which is [0, 0] for a dimension
        of 2^31 or more. */
    function CellIndex(x: int, y: int, z: int): (index: int)
      reads this
      ensures width >= 1 && height >= 1 && depth >= 1 ==> 0 <= index < width * height * depth
      ensures 0 <= x < width < 0x8000_0000 && 0 <= y < height < 0x8000_0000 && 0 <= z < depth < 0x8000_0000 ==>
        index == x + y * width + z * width * height
    {
      var cx := Bound(0, x, LastCoordinate(width));
      var cy := Bound(0, y, LastCoordinate(height));
      var cz := Bound(0, z, LastCoordinate(depth));
      var index := cx + cy * width + cz * width * height;
      assert width >= 1 && height >= 1 && depth >= 1 ==> 0 <= index < width * height * depth by {
        if width >= 1 && height >= 1 && depth >= 1 {
          LinearIndexBelow(cx, cy, cz, width, height, depth);
        }
      }
      index
    }

    /** voxelAt(x, y, z): the offset of the clamped voxel. */
    function VoxelAt(x: int, y: int, z: int): (offset: u32)
      reads this
      ensures width >= 1 && height >= 1 && depth >= 1 && width * height * depth * bytesPerCell <= WORD ==>
        offset + bytesPerCell <= width * height * depth * bytesPerCell
    {
      var index := CellIndex(x, y, z);
      if width >= 1 && height >= 1 && depth >= 1 && width * height * depth * bytesPerCell <= WORD then
        OffsetInBuffer(index, width * height * depth, bytesPerCell);
        CellOffset(index, bytesPerCell)
      else CellOffset(index, bytesPerCell)
    }

    /** voxelAt(i): the offset of cell i. */
    function VoxelAtIndex(i: u32): (offset: u32)
      reads this
      ensures i * bytesPerCell < WORD ==> offset == i * bytesPerCell
    {
      CellOffset(i, bytesPerCell)
    }

    /** The value of the cell at offset: one byte, or for any other cell size
        the 16-bit value of the two bytes there in the host's little-endian order. */
    function CellValue(offset: nat): (v: int)
      reads this, volData
      requires volData != null && offset + (if bytesPerCell == 1 then 1 else 2) <= volData.Length
      ensures 0 <= v < (if bytesPerCell == 1 then 0x100 else 0x1_0000)
      ensures bytesPerCell == 1 ==> v == volData[offset]
      ensures bytesPerCell != 1 ==> v % 256 == volData[offset] && v / 256 == volData[offset + 1]
    {
      if bytesPerCell == 1 then volData[offset] else volData[offset] as int + 256 * volData[offset + 1] as int
    }

    /** densityAt(x, y, z). */
    function DensityAt(x: int, y: int, z: int): (v: int)
      reads this, volData
      requires volData != null && VoxelAt(x, y, z) + (if bytesPerCell == 1 then 1 else 2) <= volData.Length
      ensures 0 <= v < (if bytesPerCell == 1 then 0x100 else 0x1_0000)
    {
      CellValue(VoxelAt(x, y, z))
    }

    /** densityAt(i). */
    function DensityAtIndex(i: u32): (v: int)
      reads this, volData
      requires volData != null && VoxelAtIndex(i) + (if bytesPerCell == 1 then 1 else 2) <= volData.Length
      ensures 0 <= v < (if bytesPerCell == 1 then 0x100 else 0x1_0000)
    {
      CellValue(VoxelAtIndex(i))
    }

    /** getSlice(z): the offset of slice z, C's unsigned z * width * height * bytesPerCell. */
    function Slice(z: int): (offset: u32)
      reads this
      ensures 0 <= z * width * height * bytesPerCell < WORD ==> offset == z * width * height * bytesPerCell
    {
      Wrap32(z * width * height * bytesPerCell)
    }

    /** voxelCount(): the unsigned product width * height * depth. */
    function VoxelCount(): (n: u32)
      reads this
      ensures width * height * depth < WORD ==> n == width * height * depth
    {
      Wrap32(width * height * depth)
    }

    /** getBytesPerCell() as written: qCeil of the integer quotient bitDepth / 8,
        which has already been truncated. */
    function GetBytesPerCellAsWritten(): (n: u32)
      reads this
      ensures 8 * n <= bitDepth < 8 * (n + 1)
    {
      bitDepth / 8
    }

    /** getBytesPerCell() with the division done before rounding up, as
        setVolData stores it. */
    function GetBytesPerCell(): (n: u32)
      reads this
      ensures 8 * n >= bitDepth && 8 * (n - 1) < bitDepth
    {
      CeilDiv8(bitDepth)
    }

    /** setVolData(width, height, depth, bitDepth, data): the shape is always
        stored; the buffer is replaced only by a non-null one, and only then
        is volDataChanged emitted. */
    method SetVolData(w: u32, h: u32, d: u32, bits: int, data: array?<byte>) returns (changed: bool)
      modifies this
      ensures width == w && height == h && depth == d
      ensures bitDepth == Wrap32(bits) && bytesPerCell == Wrap32(CeilDiv8(bits))
      ensures volData == if data != null then data else old(volData)
      ensures changed <==> data != null
    {
      bitDepth := Wrap32(bits);
      bytesPerCell := Wrap32(CeilDiv8(bits));
      width, height, depth := w, h, d;
      changed := false;
      if data != null {
        volData := data;
        changed := true;
      }
    }
  }

  /** The linear index of coordinates inside the box is inside the box. */
  lemma LinearIndexBelow(x: int, y: int, z: int, w: int, h: int, d: int)
    requires 0 <= x < w && 0 <= y < h && 0 <= z < d
    ensures 0 <= x + y * w + z * w * h < w * h * d
  {
    var m := w * h;
    MulMonotone(y, h - 1, w);
    assert (h - 1) * w == m - w;
    MulMonotone(z, d - 1, m);
    assert (d - 1) * m == m * d - m;
    assert z * w * h == z * m;
    assert w * h * d == m * d;
    MulNonNegative(y, w);
    MulNonNegative(z, m);
  }

  /** Multiplying by a non-negative factor keeps the order. */
  lemma MulMonotone(a: int, b: int, c: int)
    requires a <= b && c >= 0
    ensures a * c <= b * c
  {
    MulNonNegative(b - a, c);
    assert b * c - a * c == (b - a) * c;
  }

  /** A cell inside a buffer of count cells that fits in 32 bits: its offset
      does not wrap and its bytes end inside the buffer. */
  lemma OffsetInBuffer(index: int, count: int, size: u32)
    requires 0 <= index < count && count * size <= WORD
    ensures CellOffset(index, size) + size <= count * size
  {
    assert (count - index) * size >= size by {
      MulNonNegative(count - index - 1, size);
    }
    assert index * size + size <= count * size;
    MulNonNegative(index, size);
  }

  // ---------------------------------------------------------------------------
  // Properties of the addressing

  /** Out-of-range coordinates address the nearest edge voxel; along an axis
      of 2^31 or more cells, every coordinate addresses the first voxel. */
  lemma EdgeVoxel(v: Volume, x: int, y: int, z: int)
    ensures v.VoxelAt(x, y, z) == v.VoxelAt(Bound(0, x, LastCoordinate(v.width)),
                                            Bound(0, y, LastCoordinate(v.height)),
                                            Bound(0, z, LastCoordinate(v.depth)))
    ensures x < 0 ==> v.VoxelAt(x, y, z) == v.VoxelAt(0, y, z)
    ensures 0x8000_0000 > v.width >= 1 && x >= v.width ==> v.VoxelAt(x, y, z) == v.VoxelAt(v.width - 1, y, z)
    ensures v.width >= 0x8000_0000 ==> v.VoxelAt(x, y, z) == v.VoxelAt(0, y, z)
  {
  }

  /** Every clamped voxel index lies below voxelCount() when the count fits in 32 bits. */
  lemma IndexBelowCount(v: Volume, x: int, y: int, z: int)
    requires v.width >= 1 && v.height >= 1 && v.depth >= 1 && v.width * v.height * v.depth < WORD
    ensures 0 <= v.CellIndex(x, y, z) < v.VoxelCount()
  {
  }

  /** The two voxelAt overloads agree: voxel (x, y, z) inside the volume is
      cell x + y * width + z * width * height, unless the volume is 2^31 or
      more cells wide, where voxelAt(x, y, z) clamps x to 0. */
  lemma OverloadsAgree(v: Volume, x: int, y: int, z: int)
    requires 0 <= x < v.width && 0 <= y < v.height && 0 <= z < v.depth
    requires v.bytesPerCell >= 1 && v.width * v.height * v.depth * v.bytesPerCell <= WORD
    ensures 0 <= x + y * v.width + z * v.width * v.height < WORD
    ensures v.width < 0x8000_0000 && v.height < 0x8000_0000 && v.depth < 0x8000_0000 ==>
      v.VoxelAt(x, y, z) == v.VoxelAtIndex(x + y * v.width + z * v.width * v.height)
    ensures v.width >= 0x8000_0000 && x > 0 ==>
      v.VoxelAt(x, y, z) != v.VoxelAtIndex(x + y * v.width + z * v.width * v.height)
  {
    var w: int, h: int, d: int, b: u32 := v.width, v.height, v.depth, v.bytesPerCell;
    var rest := y * w + z * w * h;
    LinearIndexBelow(x, y, z, w, h, d);
    ProductAtLeast(w * h * d, b);
    assert x + rest < WORD;
    if w >= 0x8000_0000 && x > 0 {
      WideVolumeIsShallow(w, h, d, b);
      assert v.CellIndex(x, y, z) == rest;
      OffsetsDiffer(rest, x + rest, w * h * d, b);
    } else if w < 0x8000_0000 && h < 0x8000_0000 && d < 0x8000_0000 {
      assert v.CellIndex(x, y, z) == x + rest;
    }
  }

  /** A volume of 2^31 or more cells across whose buffer fits in 32 bits has
      fewer than 2^31 rows and slices. */
  lemma WideVolumeIsShallow(w: int, h: int, d: int, b: int)
    requires w >= 0x8000_0000 && h >= 1 && d >= 1 && b >= 1 && w * h * d * b <= WORD
    ensures h < 0x8000_0000 && d < 0x8000_0000
  {
    var db := d * b;
    ProductAtLeast(d, b);
    var m := h * db;
    ProductAtLeast(h, db);
    var hb := h * b;
    ProductAtLeast(h, b);
    ProductAtLeast(d, hb);
    assert d * hb == m;
    assert w * h * d * b == w * m;
    MulMonotone(0x8000_0000, w, m);
  }

  /** Two different cells of a buffer that fits in 32 bits have different offsets. */
  lemma OffsetsDiffer(i: int, j: int, count: int, size: u32)
    requires 0 <= i < j < count && size >= 1 && count * size <= WORD
    ensures CellOffset(i, size) != CellOffset(j, size)
  {
    MulMonotone(j + 1, count, size);
    assert (j + 1) * size == j * size + size;
    MulMonotone(i + 1, j, size);
    assert (i + 1) * size == i * size + size;
    MulNonNegative(i, size);
  }

  lemma ProductAtLeast(a: int, b: int)
    requires a >= 0 && b >= 1
    ensures a <= a * b
  {
    MulNonNegative(a, b - 1);
  }

  /** getSlice(z) is the offset of the first voxel of slice z, and the whole
      slice lies inside the buffer. */
  lemma SliceIsFirstVoxel(v: Volume, z: int)
    requires 0 <= z < v.depth && v.width >= 1 && v.height >= 1
    requires v.width * v.height * v.depth * v.bytesPerCell <= WORD
    ensures v.depth < 0x8000_0000 ==> v.Slice(z) == v.VoxelAt(0, 0, z)
    ensures v.Slice(z) + v.width * v.height * v.bytesPerCell <= v.width * v.height * v.depth * v.bytesPerCell
  {
    if v.depth < 0x8000_0000 {
      assert v.CellIndex(0, 0, z) == z * v.width * v.height;
    }
    SliceBelowTotal(z, v.width, v.height, v.depth, v.bytesPerCell);
  }

  /** Slice z of d slices of w * h cells of b bytes each ends inside the buffer. */
  lemma SliceBelowTotal(z: int, w: int, h: int, d: int, b: int)
    requires 0 <= z < d && w >= 0 && h >= 0 && b >= 0
    ensures 0 <= z * w * h * b && z * w * h * b + w * h * b <= w * h * d * b
  {
    var n := w * h * b;
    MulNonNegative(w * h, b);
    MulNonNegative(z, n);
    MulNonNegative(d - z - 1, n);
    assert z * w * h * b == z * n;
    assert w * h * d * b == d * n;
    assert d * n == (z + 1) * n + (d - z - 1) * n;
  }

  /** After setVolData with a bit depth in range, the corrected getter returns
      the bytes per cell setVolData stored. */
  lemma GetBytesPerCellAgrees(v: Volume, bits: int)
    requires 0 <= bits < WORD
    requires v.bitDepth == Wrap32(bits) && v.bytesPerCell == Wrap32(CeilDiv8(bits))
    ensures v.GetBytesPerCell() == v.bytesPerCell
  {
  }

  /** After setVolData with a bit depth that is not a whole number of bytes,
      getBytesPerCell as written returns one byte less than setVolData stored
      (bitDepth 12: 1 instead of 2). */
  lemma GetBytesPerCellAsWrittenDisagrees(v: Volume, bits: int)
    requires 0 <= bits < WORD && bits % 8 != 0
    requires v.bitDepth == Wrap32(bits) && v.bytesPerCell == Wrap32(CeilDiv8(bits))
    ensures v.GetBytesPerCellAsWritten() == v.bytesPerCell - 1
  {
  }
}
