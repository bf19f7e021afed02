/** DDS_deinterleave and DDS_interleave (Formats/DDSLoader.cpp:133-195): the
    bytes of a window are regrouped by their position modulo `skip` (column 0
    first, then column 1, ...), and restored again.  With a non-zero `block`
    the stream is cut into windows of skip * block bytes that are regrouped
    independently. */
module DdsInterleave {
  import opened Machine

  // ---------------------------------------------------------------------------
  // Columns of a window of n bytes

  /** How many positions j < n have j % s == i. */
  function Count(n: nat, s: nat, i: nat): nat
    requires 0 < s
  {
    n / s + (if i < n % s then 1 else 0)
  }

  /** Where column i starts once columns 0 .. i-1 have been gathered. */
  function GroupStart(n: nat, s: nat, i: nat): nat
    requires 0 < s
  {
    if i == 0 then 0 else GroupStart(n, s, i - 1) + Count(n, s, i - 1)
  }

  lemma {:induction false} GroupStep(n: nat, s: nat, i: nat)
    requires 0 < s
    ensures GroupStart(n, s, i + 1) == GroupStart(n, s, i) + Count(n, s, i)
  {
  }

  /** The first i columns hold i * (n / s) bytes plus one for each long column. */
  lemma {:induction false} GroupClosed(n: nat, s: nat, i: nat)
    requires 0 < s
    ensures GroupStart(n, s, i) == i * (n / s) + (if i < n % s then i else n % s)
  {
    if i > 0 {
      GroupClosed(n, s, i - 1);
      assert i * (n / s) == (i - 1) * (n / s) + n / s;
    }
  }

  /** All s columns together are the whole window. */
  lemma {:induction false} GroupAll(n: nat, s: nat)
    requires 0 < s
    ensures GroupStart(n, s, s) == n
  {
    GroupClosed(n, s, s);
    assert n == (n / s) * s + n % s;
  }

  lemma {:induction false} GroupMonotone(n: nat, s: nat, i: nat, m: nat)
    requires 0 < s && i <= m
    ensures GroupStart(n, s, i) <= GroupStart(n, s, m)
  {
    if i < m {
      GroupMonotone(n, s, i, m - 1);
      GroupStep(n, s, m - 1);
    }
  }

  /** Column i has an entry t exactly when t < Count(n, s, i). */
  lemma {:induction false} ColumnBound(n: nat, s: nat, i: nat, t: nat)
    requires i < s
    ensures i + t * s < n <==> t < Count(n, s, i)
  {
    var a, r := n / s, n % s;
    assert n == a * s + r;
    if t < a {
      MulLe(t + 1, a, s);
      assert (t + 1) * s == t * s + s;
    } else if t > a {
      MulLe(a + 1, t, s);
      assert (a + 1) * s == a * s + s;
    }
  }

  lemma {:induction false} MulPred(t: nat, s: nat)
    requires t > 0
    ensures t * s == (t - 1) * s + s
  {
  }

  lemma {:induction false} MulLe(x: nat, y: nat, s: nat)
    requires x <= y
    ensures x * s <= y * s
  {
    assert y * s - x * s == (y - x) * s;
    MulNonNegative(y - x, s);
  }

  /** The column (q mod s) and the row (q div s) of position q, counted the
      way the loops step through a window: by repeated steps of s. */
  function Col(q: nat, s: nat): nat
    requires 0 < s
  {
    if q < s then q else Col(q - s, s)
  }

  function Row(q: nat, s: nat): nat
    requires 0 < s
  {
    if q < s then 0 else Row(q - s, s) + 1
  }

  lemma {:induction false} ColRow(q: nat, s: nat)
    requires 0 < s
    ensures Col(q, s) < s && q == Col(q, s) + Row(q, s) * s
  {
    if q >= s {
      ColRow(q - s, s);
      assert (Row(q - s, s) + 1) * s == Row(q - s, s) * s + s;
    }
  }

  lemma {:induction false} ColRowOf(s: nat, i: nat, t: nat)
    requires i < s
    ensures Col(i + t * s, s) == i && Row(i + t * s, s) == t
  {
    if t > 0 {
      assert i + t * s - s == i + (t - 1) * s;
      ColRowOf(s, i, t - 1);
    }
  }

  /** Two positions of the same column less than s apart are the same. */
  lemma {:induction false} SameColumn(q: nat, j: nat, s: nat)
    requires 0 < s && Col(q, s) == Col(j, s) && j <= q < j + s
    ensures q == j
  {
    ColRow(q, s);
    ColRow(j, s);
    var d := Row(q, s) - Row(j, s);
    assert q - j == d * s;
    if d > 0 {
      MulAtLeast(d, s);
    }
  }

  /** The C loop for (j = i; j < bytes; j += skip): the bytes w[j], w[j + s], ... */
  function ColumnFrom(w: seq<byte>, j: nat, s: nat): seq<byte>
    requires 0 < s
    decreases |w| - j
  {
    if j >= |w| then [] else [w[j]] + ColumnFrom(w, j + s, s)
  }

  /** Position p of w, in the same column as j and not before it, is entry
      Row(p - j) of the column starting at j. */
  lemma {:induction false} ColumnFromAt(w: seq<byte>, j: nat, s: nat, p: nat)
    requires 0 < s && j <= p < |w| && Col(p - j, s) == 0
    ensures Row(p - j, s) < |ColumnFrom(w, j, s)| && ColumnFrom(w, j, s)[Row(p - j, s)] == w[p]
    decreases p - j
  {
    if p - j >= s {
      ColumnFromAt(w, j + s, s, p);
    }
  }

  /** Stepping back to the top of its column. */
  lemma {:induction false} ColumnTop(q: nat, s: nat)
    requires 0 < s
    ensures Col(q, s) <= q && Col(q - Col(q, s), s) == 0 && Row(q - Col(q, s), s) == Row(q, s)
  {
    if q >= s {
      ColumnTop(q - s, s);
      assert q - Col(q, s) == (q - s - Col(q - s, s)) + s;
    }
  }



  lemma {:induction false} ColumnFromLength(w: seq<byte>, s: nat, i: nat, t: nat)
    requires i < s && t <= Count(|w|, s, i)
    ensures |ColumnFrom(w, i + t * s, s)| == Count(|w|, s, i) - t
    decreases Count(|w|, s, i) - t
  {
    ColumnBound(|w|, s, i, t);
    if t < Count(|w|, s, i) {
      assert i + t * s + s == i + (t + 1) * s;
      ColumnFromLength(w, s, i, t + 1);
    }
  }

  /** Columns 0 .. i-1, one after the other. */
  function Prefix(w: seq<byte>, s: nat, i: nat): seq<byte>
    requires 0 < s && i <= s
  {
    if i == 0 then [] else Prefix(w, s, i - 1) + ColumnFrom(w, i - 1, s)
  }

  lemma {:induction false} PrefixLength(w: seq<byte>, s: nat, i: nat)
    requires 0 < s && i <= s
    ensures |Prefix(w, s, i)| == GroupStart(|w|, s, i)
  {
    if i > 0 {
      PrefixLength(w, s, i - 1);
      GroupStep(|w|, s, i - 1);
      ColumnFromLength(w, s, i - 1, 0);
    }
  }

  /** The non-restoring pass of DDS_deinterleave over one window. */
  function Deinterleaved(w: seq<byte>, s: nat): (r: seq<byte>)
    requires 0 < s
    ensures |r| == |w|
  {
    PrefixLength(w, s, s);
    GroupAll(|w|, s);
    Prefix(w, s, s)
  }

  /** Where byte q of a window of n bytes lands when the window is deinterleaved. */
  function Dst(n: nat, s: nat, q: nat): (r: nat)
    requires 0 < s
    ensures q < n ==> r < n
  {
    SlotBound(n, s, q);
    GroupStart(n, s, Col(q, s)) + Row(q, s)
  }

  lemma {:induction false} SlotBound(n: nat, s: nat, q: nat)
    requires 0 < s
    ensures q < n ==> GroupStart(n, s, Col(q, s)) + Row(q, s) < n
  {
    if q < n {
      var i, t := Col(q, s), Row(q, s);
      ColRow(q, s);
      ColumnBound(n, s, i, t);
      GroupStep(n, s, i);
      GroupMonotone(n, s, i + 1, s);
      GroupAll(n, s);
    }
  }

  /** The restoring pass of DDS_deinterleave over one window: byte q is taken
      back from where the non-restoring pass put it. */
  function Interleaved(w: seq<byte>, s: nat): (r: seq<byte>)
    requires 0 < s
    ensures |r| == |w|
  {
    Placed(w, s, |w|)
  }

  /** The first n bytes of the restored window. */
  function Placed(w: seq<byte>, s: nat, n: nat): (r: seq<byte>)
    requires 0 < s && n <= |w|
    ensures |r| == n
  {
    if n == 0 then [] else Placed(w, s, n - 1) + [w[Dst(|w|, s, n - 1)]]
  }

  /** Restoring takes byte q from Dst(q). */
  lemma {:induction false} InterleavedAt(w: seq<byte>, s: nat, q: nat)
    requires 0 < s && q < |w|
    ensures Dst(|w|, s, q) < |w| && Interleaved(w, s)[q] == w[Dst(|w|, s, q)]
  {
    PlacedAt(w, s, |w|, q);
  }

  lemma {:induction false} PlacedAt(w: seq<byte>, s: nat, n: nat, q: nat)
    requires 0 < s && q < n <= |w|
    ensures Placed(w, s, n)[q] == w[Dst(|w|, s, q)]
  {
    if q < n - 1 {
      PlacedAt(w, s, n - 1, q);
    }
  }

  /** Deinterleaving moves byte q to Dst(q). */
  lemma {:induction false} DeinterleavedAt(w: seq<byte>, s: nat, q: nat)
    requires 0 < s && q < |w|
    ensures Dst(|w|, s, q) < |w| && Deinterleaved(w, s)[Dst(|w|, s, q)] == w[q]
  {
    var i := Col(q, s);
    ColRow(q, s);
    ColumnTop(q, s);
    ColumnFromAt(w, i, s, q);
    PrefixLength(w, s, i);
    PrefixAt(w, s, i, Row(q, s));
  }



  /** Entry t of column i sits right after columns 0 .. i-1. */
  lemma {:induction false} PrefixAt(w: seq<byte>, s: nat, i: nat, t: nat)
    requires i < s && t < |ColumnFrom(w, i, s)|
    ensures |Prefix(w, s, i)| + t < |Prefix(w, s, s)|
    ensures Prefix(w, s, s)[|Prefix(w, s, i)| + t] == ColumnFrom(w, i, s)[t]
  {
    var k := |Prefix(w, s, i)| + t;
    assert Prefix(w, s, i + 1)[k] == ColumnFrom(w, i, s)[t];
    PrefixKeeps(w, s, i + 1, s, k);
  }

  /** Appending later columns leaves the earlier entries in place. */
  lemma {:induction false} PrefixKeeps(w: seq<byte>, s: nat, i: nat, m: nat, k: nat)
    requires 0 < s && i <= m <= s && k < |Prefix(w, s, i)|
    ensures k < |Prefix(w, s, m)| && Prefix(w, s, m)[k] == Prefix(w, s, i)[k]
  {
    if i < m {
      PrefixKeeps(w, s, i, m - 1, k);
    }
  }

  /** Every position of the window is the target of some byte. */
  lemma {:induction false} DstOnto(n: nat, s: nat, p: nat) returns (q: nat)
    requires 0 < s && p < n
    ensures q < n && Dst(n, s, q) == p
  {
    var g := FindGroup(n, s, p, 0);
    var t := p - GroupStart(n, s, g);
    GroupStep(n, s, g);
    ColumnBound(n, s, g, t);
    ColRowOf(s, g, t);
    q := g + t * s;
  }

  lemma {:induction false} FindGroup(n: nat, s: nat, p: nat, i: nat) returns (g: nat)
    requires 0 < s && i < s && GroupStart(n, s, i) <= p < n
    ensures g < s && GroupStart(n, s, g) <= p < GroupStart(n, s, g + 1)
    decreases s - i
  {
    if i + 1 < s && GroupStart(n, s, i + 1) <= p {
      g := FindGroup(n, s, p, i + 1);
    } else {
      if i + 1 == s {
        GroupAll(n, s);
      }
      g := i;
    }
  }

  /** Restoring undoes deinterleaving. */
  lemma {:induction false} InterleavedUndoes(w: seq<byte>, s: nat)
    requires 0 < s
    ensures Interleaved(Deinterleaved(w, s), s) == w
  {
    var d := Deinterleaved(w, s);
    forall j | 0 <= j < |w|
      ensures Interleaved(d, s)[j] == w[j]
    {
      DeinterleavedAt(w, s, j);
      InterleavedAt(d, s, j);
    }
  }

  /** Deinterleaving undoes restoring. */
  lemma {:induction false} DeinterleavedUndoes(w: seq<byte>, s: nat)
    requires 0 < s
    ensures Deinterleaved(Interleaved(w, s), s) == w
  {
    var e := Interleaved(w, s);
    var d := Deinterleaved(e, s);
    forall p | 0 <= p < |w|
      ensures d[p] == w[p]
    {
      var j := DstOnto(|w|, s, p);
      DeinterleavedAt(e, s, j);
      InterleavedAt(w, s, j);
    }
  }

  // ---------------------------------------------------------------------------
  // Windows and the whole stream

  function Permuted(w: seq<byte>, s: nat, restore: bool): (r: seq<byte>)
    requires 0 < s
    ensures |r| == |w|
  {
    if restore then Interleaved(w, s) else Deinterleaved(w, s)
  }

  /** Consecutive windows of `width` bytes, the last one possibly shorter. */
  function Windowed(w: seq<byte>, s: nat, width: nat, restore: bool): (r: seq<byte>)
    requires 0 < s && 0 < width
    ensures |r| == |w|
    decreases |w|
  {
    if |w| <= width then Permuted(w, s, restore)
    else Permuted(w[..width], s, restore) + Windowed(w[width..], s, width, restore)
  }

  /** DDS_deinterleave(data, bytes, skip, block, restore) as a function of the bytes. */
  function Shuffled(w: seq<byte>, skip: nat, block: nat, restore: bool): (r: seq<byte>)
    ensures |r| == |w|
  {
    if skip <= 1 then w
    else if block == 0 then Permuted(w, skip, restore)
    else Windowed(w, skip, skip * block, restore)
  }

  lemma {:induction false} PermutedUndoes(w: seq<byte>, s: nat, restore: bool)
    requires 0 < s
    ensures Permuted(Permuted(w, s, restore), s, !restore) == w
  {
    if restore {
      DeinterleavedUndoes(w, s);
    } else {
      InterleavedUndoes(w, s);
    }
  }

  lemma {:induction false} WindowedUndoes(w: seq<byte>, s: nat, width: nat, restore: bool)
    requires 0 < s && 0 < width
    ensures Windowed(Windowed(w, s, width, restore), s, width, !restore) == w
    decreases |w|
  {
    if |w| <= width {
      PermutedUndoes(w, s, restore);
    } else {
      var head, tail := w[..width], w[width..];
      var a := Windowed(w, s, width, restore);
      assert a[..width] == Permuted(head, s, restore);
      assert a[width..] == Windowed(tail, s, width, restore);
      PermutedUndoes(head, s, restore);
      WindowedUndoes(tail, s, width, restore);
      assert w == head + tail;
    }
  }

  /** DDS_interleave undoes DDS_deinterleave with the same skip and block, and
      the other way round. */
  lemma {:induction false} ShuffledUndoes(w: seq<byte>, skip: nat, block: nat, restore: bool)
    ensures Shuffled(Shuffled(w, skip, block, restore), skip, block, !restore) == w
  {
    if skip > 1 {
      if block == 0 {
        PermutedUndoes(w, skip, restore);
      } else {
        MulAtLeast(block, skip);
        WindowedUndoes(w, skip, skip * block, restore);
      }
    }
  }

  /** m is a whole number of windows of `width` bytes. */
  predicate Whole(m: nat, width: nat)
    requires 0 < width
    decreases m
  {
    m == 0 || (width <= m && Whole(m - width, width))
  }

  /** Full windows followed by at most one window. */
  lemma {:induction false} WindowedAppend(x: seq<byte>, y: seq<byte>, s: nat, width: nat, restore: bool)
    requires 0 < s && 0 < width && Whole(|x|, width) && |y| <= width
    ensures Windowed(x + y, s, width, restore) == Windowed(x, s, width, restore) + Permuted(y, s, restore)
    decreases |x|
  {
    if |y| == 0 {
      assert x + y == x;
    } else if |x| == 0 {
      assert x + y == y;
    } else {
      WindowedAppend(x[width..], y, s, width, restore);
      WindowedCons(x, y, s, width, restore);
    }
  }

  /** Peeling the first full window off x + y. */
  lemma {:induction false} WindowedCons(x: seq<byte>, y: seq<byte>, s: nat, width: nat, restore: bool)
    requires 0 < s && 0 < width && width <= |x| && 0 < |y|
    ensures Windowed(x + y, s, width, restore)
         == Permuted(x[..width], s, restore) + Windowed(x[width..] + y, s, width, restore)
    ensures Windowed(x, s, width, restore)
         == Permuted(x[..width], s, restore) + Windowed(x[width..], s, width, restore)
  {
    var z := x + y;
    assert z[..width] == x[..width];
    assert z[width..] == x[width..] + y;
    if |x| == width {
      assert x[width..] == [] && x[..width] == x;
    }
  }

  // ---------------------------------------------------------------------------
  // The in-place passes

  /** The non-restoring loops: column after column, the window's bytes are
      appended to the scratch buffer. */
  method Gather(data: array<byte>, base: nat, len: nat, s: nat, scratch: array<byte>)
    requires data != scratch && 0 < s
    requires base + len <= data.Length && len <= scratch.Length
    modifies scratch
    ensures scratch[..len] == Deinterleaved(data[base..base + len], s)
  {
    ghost var w := data[base..base + len];
    var ptr, i := 0, 0;
    while i < s
      invariant i <= s && ptr == GroupStart(len, s, i) <= len && scratch[..ptr] == Prefix(w, s, i)
    {
      NextColumn(w, len, s, i);
      ptr := GatherColumn(data, base, len, s, scratch, i, ptr, w);
      i := i + 1;
    }
    GroupAll(len, s);
  }

  /** Column i of the window extends the gathered prefix up to where group i + 1 starts. */
  lemma NextColumn(w: seq<byte>, n: nat, s: nat, i: nat)
    requires |w| == n && i < s
    ensures GroupStart(n, s, i) + |ColumnFrom(w, i, s)| == GroupStart(n, s, i + 1) <= n
    ensures Prefix(w, s, i + 1) == Prefix(w, s, i) + ColumnFrom(w, i, s)
  {
    PrefixLength(w, s, i);
    PrefixLength(w, s, i + 1);
    GroupMonotone(n, s, i + 1, s);
    GroupAll(n, s);
  }

  /** One pass of the inner gathering loop: bytes i, i + s, i + 2s, … of the
      window are appended to the scratch buffer at position start. */
  method GatherColumn(data: array<byte>, base: nat, len: nat, s: nat, scratch: array<byte>,
                      i: nat, start: nat, ghost w: seq<byte>) returns (ptr: nat)
    requires data != scratch && 0 < s && base + len <= data.Length && w == data[base..base + len]
    requires start + |ColumnFrom(w, i, s)| <= scratch.Length
    modifies scratch
    ensures ptr == start + |ColumnFrom(w, i, s)|
    ensures scratch[..ptr] == old(scratch[..start]) + ColumnFrom(w, i, s)
  {
    ghost var done := scratch[..start];
    ptr := start;
    var j := i;
    while j < len
      invariant ptr + |ColumnFrom(w, j, s)| == start + |ColumnFrom(w, i, s)|
      invariant scratch[..ptr] + ColumnFrom(w, j, s) == done + ColumnFrom(w, i, s)
      decreases len - j
    {
      GatherStep(scratch[..ptr], w, j, s);
      scratch[ptr] := data[base + j];
      assert scratch[..ptr + 1] == scratch[..ptr] + [w[j]];
      ptr, j := ptr + 1, j + s;
    }
    assert ColumnFrom(w, j, s) == [];
  }

  lemma {:induction false} GatherStep(done: seq<byte>, w: seq<byte>, j: nat, s: nat)
    requires 0 < s && j < |w|
    ensures ColumnFrom(w, j, s) == [w[j]] + ColumnFrom(w, j + s, s)
    ensures done + ColumnFrom(w, j, s) == (done + [w[j]]) + ColumnFrom(w, j + s, s)
  {
  }

  /** The restoring loops: the window is read front to back and its bytes are
      put back, column after column, at their original positions. */
  method Scatter(data: array<byte>, base: nat, len: nat, s: nat, scratch: array<byte>)
    requires data != scratch && 0 < s
    requires base + len <= data.Length && len <= scratch.Length
    modifies scratch
    ensures scratch[..len] == Interleaved(data[base..base + len], s)
  {
    ghost var w := data[base..base + len];
    var ptr, i := 0, 0;
    while i < s
      invariant i <= s && ptr == GroupStart(len, s, i)
      invariant forall q :: 0 <= q < len && Col(q, s) < i ==> scratch[q] == w[Dst(len, s, q)]
    {
      ptr := ScatterColumn(data, base, len, s, scratch, i, ptr, w);
      i := i + 1;
    }
    forall q | 0 <= q < len
      ensures scratch[..len][q] == Interleaved(w, s)[q]
    {
      ColRow(q, s);
      InterleavedAt(w, s, q);
    }
  }

  /** One pass of the inner restoring loop: the bytes of group i, read in
      order from position start, go back to positions i, i + s, i + 2s, … */
  method ScatterColumn(data: array<byte>, base: nat, len: nat, s: nat, scratch: array<byte>,
                       i: nat, start: nat, ghost w: seq<byte>) returns (ptr: nat)
    requires data != scratch && i < s && base + len <= data.Length && len <= scratch.Length
    requires w == data[base..base + len] && start == GroupStart(len, s, i)
    modifies scratch
    ensures ptr == GroupStart(len, s, i + 1)
    ensures forall q :: 0 <= q < len && Col(q, s) == i ==> scratch[q] == w[Dst(len, s, q)]
    ensures forall q :: 0 <= q < scratch.Length && !(q < len && Col(q, s) == i) ==>
              scratch[q] == old(scratch[q])
  {
    ptr := start;
    var j := i;
    while j < len
      invariant j < len + s && Col(j, s) == i && ptr == Dst(len, s, j)
      invariant forall q :: 0 <= q < len && Col(q, s) == i && q < j ==> scratch[q] == w[Dst(len, s, q)]
      invariant forall q :: 0 <= q < scratch.Length && !(q < len && Col(q, s) == i) ==>
                  scratch[q] == old(scratch[q])
      decreases len - j
    {
      assert data[base + ptr] == w[Dst(len, s, j)];
      scratch[j] := data[base + ptr];
      forall q | 0 <= q < len && Col(q, s) == i && j <= q < j + s
        ensures q == j
      {
        SameColumn(q, j, s);
      }
      ptr, j := ptr + 1, j + s;
    }
    ScatterExit(len, s, i, j, ptr);
  }

  /** After column i has been walked to its end, ptr is where column i + 1 starts. */
  lemma {:induction false} ScatterExit(n: nat, s: nat, i: nat, j: nat, ptr: nat)
    requires i < s && Col(j, s) == i && ptr == Dst(n, s, j) && n <= j < n + s
    ensures ptr == GroupStart(n, s, i + 1)
  {
    var t := Row(j, s);
    ColRow(j, s);
    ColumnBound(n, s, i, t);
    if t > 0 {
      assert j - s == i + (t - 1) * s;
      ColumnBound(n, s, i, t - 1);
    }
    GroupStep(n, s, i);
  }

  /** memcpy(data + base, data2, len). */
  method CopyBack(data: array<byte>, base: nat, len: nat, scratch: array<byte>)
    requires data != scratch && base + len <= data.Length && len <= scratch.Length
    modifies data
    ensures data[..] == old(data[..base]) + scratch[..len] + old(data[base + len..])
  {
    ghost var target := old(data[..base]) + scratch[..len] + old(data[base + len..]);
    var k := 0;
    while k < len
      invariant k <= len
      invariant forall t :: 0 <= t < data.Length ==>
                  data[t] == if base <= t < base + k then target[t] else old(data[t])
    {
      data[base + k] := scratch[k];
      k := k + 1;
    }
    assert data[..] == target;
  }

  /** One window: regroup into the scratch buffer, then copy back.  The
      array is `head`, the window `mid` at offset base, and `tail`. */
  method ShuffleWindow(data: array<byte>, base: nat, len: nat, s: nat, scratch: array<byte>, restore: bool,
                       ghost head: seq<byte>, ghost mid: seq<byte>, ghost tail: seq<byte>)
    requires data != scratch && 0 < s && len <= scratch.Length
    requires |head| == base && |mid| == len && data[..] == head + mid + tail
    modifies data, scratch
    ensures data[..] == head + Permuted(mid, s, restore) + tail
  {
    Parts(data[..], head, mid, tail);
    if restore {
      Scatter(data, base, len, s, scratch);
    } else {
      Gather(data, base, len, s, scratch);
    }
    CopyBack(data, base, len, scratch);
  }

  lemma {:induction false} Parts(d: seq<byte>, head: seq<byte>, mid: seq<byte>, tail: seq<byte>)
    requires d == head + mid + tail
    ensures d[..|head|] == head && d[|head|..|head| + |mid|] == mid && d[|head| + |mid|..] == tail
  {
  }


  /** DDS_deinterleave(data, bytes, skip, block, restore). */
  method Deinterleave(data: array<byte>, skip: nat, block: nat, restore: bool)
    requires skip * block < WORD
    modifies data
    ensures data[..] == Shuffled(old(data[..]), skip, block, restore)
  {
    if skip <= 1 {
      return;
    }
    var bytes := data.Length;
    if block == 0 {
      var data2 := new byte[bytes];
      assert data[..] == [] + data[..] + [];
      ShuffleWindow(data, 0, bytes, skip, data2, restore, [], data[..], []);
    } else {
      var width := skip * block;
      MulAtLeast(block, skip);
      var data2 := new byte[if bytes < width then bytes else width];
      var windows := bytes / skip / block;
      WindowCount(bytes, skip, block, width, windows);
      SpanIs(windows, width);
      ShuffleWindows(data, skip, width, windows, data2, restore);
    }
  }

  /** The loop over k of DDS_deinterleave with a non-zero block: `windows` full
      windows of `width` = skip * block bytes, then the rest of the stream. */
  method ShuffleWindows(data: array<byte>, s: nat, width: nat, windows: nat, scratch: array<byte>, restore: bool)
    requires data != scratch && 0 < s && 0 < width
    requires Span(windows, width) <= data.Length < Span(windows, width) + width
    requires scratch.Length == if data.Length < width then data.Length else width
    modifies data, scratch
    ensures data[..] == Windowed(old(data[..]), s, width, restore)
  {
    ghost var w := data[..];
    var bytes := data.Length;
    var k, start := 0, 0;
    while k < windows
      invariant k <= windows && start == Span(k, width) && start <= bytes  // start is k * skip * block
      invariant Whole(start, width) && data[..] == Regrouped(w, s, width, start, restore)
    {
      NextStart(k, windows, width, start);
      start := FullWindow(data, w, s, width, k, windows, start, scratch, restore);
      k := k + 1;
    }
    assert k == windows;
    assert bytes < start + width by { assert start == Span(windows, width); }
    LastWindow(data, w, s, width, start, scratch, restore);
  }

  /** The loop bound bytes / skip / block counts the full windows. */
  lemma {:induction false} WindowCount(bytes: nat, skip: nat, block: nat, width: nat, windows: int)
    requires 0 < skip && 0 < block && width == skip * block && windows == bytes / skip / block
    ensures 0 <= windows && windows * width <= bytes < windows * width + width
  {
    DivDiv(bytes, skip, block);
    assert bytes == bytes / width * width + bytes % width;
  }

  lemma {:induction false} NextStart(k: nat, windows: nat, width: nat, start: nat)
    requires k < windows && start == Span(k, width)
    ensures start + width == Span(k + 1, width) <= Span(windows, width)
  {
    SpanGrows(k + 1, windows, width);
  }

  /** k windows of the given width laid end to end, that is k * width. */
  function Span(k: nat, width: nat): nat
  {
    if k == 0 then 0 else Span(k - 1, width) + width
  }

  lemma {:induction false} SpanIs(k: nat, width: nat)
    ensures Span(k, width) == k * width
  {
    if k > 0 {
      SpanIs(k - 1, width);
      MulPred(k, width);
    }
  }

  lemma {:induction false} SpanGrows(k: nat, m: nat, width: nat)
    requires k <= m
    ensures Span(k, width) <= Span(m, width)
    decreases m - k
  {
    if k < m {
      SpanGrows(k, m - 1, width);
    }
  }

  /** The first `start` bytes regrouped window by window, the rest untouched. */
  function Regrouped(w: seq<byte>, s: nat, width: nat, start: nat, restore: bool): seq<byte>
    requires 0 < s && 0 < width && start <= |w|
  {
    Windowed(w[..start], s, width, restore) + w[start..]
  }

  /** One pass of the loop over k: the full window at `start` is regrouped. */
  method FullWindow(data: array<byte>, ghost w: seq<byte>, s: nat, width: nat,
                    k: nat, windows: nat, start: nat, scratch: array<byte>, restore: bool)
    returns (e: nat)
    requires data != scratch && 0 < s && 0 < width && |w| == data.Length
    requires k < windows && start == Span(k, width) && start + width <= Span(windows, width) <= |w|
    requires width <= scratch.Length
    requires Whole(start, width) && data[..] == Regrouped(w, s, width, start, restore)
    modifies data, scratch
    ensures e == Span(k + 1, width) && e <= |w| && Whole(e, width)
    ensures data[..] == Regrouped(w, s, width, e, restore)
  {
    e := start + width;
    ghost var done := Windowed(w[..start], s, width, restore);
    Cut(done, w, start, e);
    ShuffleWindow(data, start, width, s, scratch, restore, done, w[start..e], w[e..]);
    WindowedAppend(w[..start], w[start..e], s, width, restore);
  }

  /** After the loop: the shorter last window is regrouped, which completes the stream. */
  method LastWindow(data: array<byte>, ghost w: seq<byte>, s: nat, width: nat, start: nat,
                    scratch: array<byte>, restore: bool)
    requires data != scratch && 0 < s && 0 < width && start <= |w| == data.Length < start + width
    requires data.Length - start <= scratch.Length
    requires Whole(start, width) && data[..] == Regrouped(w, s, width, start, restore)
    modifies data, scratch
    ensures data[..] == Windowed(w, s, width, restore)
  {
    var bytes := data.Length;
    ghost var done := Windowed(w[..start], s, width, restore);
    Cut(done, w, start, bytes);
    ShuffleWindow(data, start, bytes - start, s, scratch, restore, done, w[start..], []);
    WindowedAppend(w[..start], w[start..], s, width, restore);
  }

  /** Cutting the untouched rest of w at e. */
  lemma {:induction false} Cut(done: seq<byte>, w: seq<byte>, m: nat, e: nat)
    requires m <= e <= |w|
    ensures done + w[m..] == done + w[m..e] + w[e..]
    ensures w[..m] + w[m..e] == w[..e]
    ensures e == |w| ==> w[m..e] == w[m..] && w[e..] == [] && w[..e] == w
  {
    assert w[m..] == w[m..e] + w[e..];
  }

  /** DDS_interleave(data, bytes, skip, block). */
  method Interleave(data: array<byte>, skip: nat, block: nat)
    requires skip * block < WORD
    modifies data
    ensures data[..] == Shuffled(old(data[..]), skip, block, true)
  {
    Deinterleave(data, skip, block, true);
  }
}
