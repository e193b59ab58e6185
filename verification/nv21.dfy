/** The manual YUV_420_888 to NV21 repack performed before a captured frame is
    handed to the JPEG encoder: the luma plane row by row, then the chroma
    planes interleaved as V,U pairs at quarter resolution. */
module Nv21 {

  import opened Wrappers

  /** One plane of a YUV_420_888 image: its backing buffer and the distance,
      in bytes, between vertically and horizontally adjacent samples. */
  datatype Plane = Plane(buffer: seq<bv8>, rowStride: nat, pixelStride: nat)

  /** Where the sample at row `r`, column `c` of `p` lives in its buffer. */
  function SampleIndex(p: Plane, r: nat, c: nat): nat
  {
    r * p.rowStride + c * p.pixelStride
  }

  /** Every sample of a `rows` by `cols` grid can be read from `p` without
      running past the end of its buffer. */
  ghost predicate Readable(p: Plane, rows: nat, cols: nat)
  {
    forall r: nat, c: nat :: r < rows && c < cols ==> SampleIndex(p, r, c) < |p.buffer|
  }

  function Sample(p: Plane, r: nat, c: nat): bv8
    requires SampleIndex(p, r, c) < |p.buffer|
  {
    p.buffer[SampleIndex(p, r, c)]
  }

  /** Size of the luma block at the head of the output. */
  function LumaSize(width: nat, height: nat): nat
  {
    width * height
  }

  /** Length of the output buffer the source allocates: the luma block plus
      two bytes for every quarter of the pixel count, rounded down. */
  function OutputLength(width: nat, height: nat): nat
  {
    LumaSize(width, height) + 2 * (width * height / 4)
  }

  /** Position of cell (r, c) in a row-major grid `cols` cells wide: `r`
      full rows, then `c` more. The luma sample (r, c) lands at
      `RowMajor(width, r, c)`; `RowMajorIsProduct` gives the closed form. */
  function RowMajor(cols: nat, r: nat, c: nat): nat
  {
    if r == 0 then c else RowMajor(cols, r - 1, c) + cols
  }

  /** Output position of the V byte of chroma sample (r, c); the U byte follows it. */
  function ChromaOffset(width: nat, height: nat, r: nat, c: nat): nat
  {
    LumaSize(width, height) + 2 * RowMajor(width / 2, r, c)
  }

  /** Offset just past the last chroma pair the loops write: the start of
      the chroma row after the last one. */
  function WrittenLength(width: nat, height: nat): nat
  {
    ChromaOffset(width, height, height / 2, 0)
  }

  lemma MulMonotone(a: nat, b: nat, k: nat)
    requires a <= b
    ensures a * k <= b * k
  {
  }

  /** The recursive row-major position is the usual `r * cols + c`. */
  lemma {:induction false} RowMajorIsProduct(cols: nat, r: nat, c: nat)
    ensures RowMajor(cols, r, c) == r * cols + c
  {
    if r > 0 {
      RowMajorIsProduct(cols, r - 1, c);
    }
  }

  /** Row `row` of a grid is a run of `cols` consecutive positions, and the
      next row starts right after it. */
  lemma RowLayout(cols: nat, row: nat)
    ensures RowMajor(cols, row + 1, 0) == RowMajor(cols, row, 0) + cols
    ensures forall c: nat :: RowMajor(cols, row, c) == RowMajor(cols, row, 0) + c
  {
    forall c: nat
      ensures RowMajor(cols, row, c) == RowMajor(cols, row, 0) + c
    {
      RowMajorIsProduct(cols, row, c);
      RowMajorIsProduct(cols, row, 0);
    }
  }

  /** Rows start further along the further down they are. */
  lemma RowStartMonotone(cols: nat, row: nat, rows: nat)
    requires row <= rows
    ensures RowMajor(cols, row, 0) <= RowMajor(cols, rows, 0)
  {
    RowMajorIsProduct(cols, row, 0);
    RowMajorIsProduct(cols, rows, 0);
    MulMonotone(row, rows, cols);
  }

  /** A cell lies before the start of every later row. */
  lemma RowMajorBelowRow(cols: nat, row: nat, r: nat, c: nat)
    requires r < row && c < cols
    ensures RowMajor(cols, r, c) < RowMajor(cols, row, 0)
  {
    RowLayout(cols, r);
    RowStartMonotone(cols, r + 1, row);
  }

  /** The luma block is `height` rows of `width` samples. */
  lemma LumaRows(width: nat, height: nat)
    ensures RowMajor(width, height, 0) == LumaSize(width, height)
  {
    RowMajorIsProduct(width, height, 0);
  }

  /** A plane is readable over a grid exactly when its last sample is in
      bounds, because sample offsets grow with both row and column. */
  lemma {:induction false} ReadableIffLastSampleFits(p: Plane, rows: nat, cols: nat)
    requires rows > 0 && cols > 0
    ensures Readable(p, rows, cols) <==> SampleIndex(p, rows - 1, cols - 1) < |p.buffer|
  {
    if SampleIndex(p, rows - 1, cols - 1) < |p.buffer| {
      forall r: nat, c: nat | r < rows && c < cols
        ensures SampleIndex(p, r, c) < |p.buffer|
      {
        MulMonotone(r, rows - 1, p.rowStride);
        MulMonotone(c, cols - 1, p.pixelStride);
      }
    }
  }

  /** The chroma pairs never run past the allocated buffer: four quarter
      blocks fit in the pixel count, so `(h/2)*(w/2) <= w*h/4`; with even
      dimensions they end exactly at its end. */
  lemma WrittenFitsOutput(width: nat, height: nat)
    ensures LumaSize(width, height) <= WrittenLength(width, height) <= OutputLength(width, height)
    ensures width % 2 == 0 && height % 2 == 0 ==> WrittenLength(width, height) == OutputLength(width, height)
  {
    var hw, ww := height / 2, width / 2;
    RowMajorIsProduct(ww, hw, 0);
    assert WrittenLength(width, height) == LumaSize(width, height) + 2 * (hw * ww);
    assert height >= 2 * hw && width >= 2 * ww;
    MulMonotone(2 * hw, height, width);
    MulMonotone(2 * ww, width, 2 * hw);
    assert 4 * (hw * ww) == (2 * ww) * (2 * hw);
    assert 4 * (hw * ww) <= width * height;
    assert hw * ww <= width * height / 4;
    if width % 2 == 0 && height % 2 == 0 {
      assert width * height == 4 * (hw * ww);
    }
  }

  /** With even dimensions nothing is left over: the chroma pairs end
      exactly at the end of the buffer, so every output byte is written. */
  lemma EvenFrameFullyWritten(width: nat, height: nat)
    requires width % 2 == 0 && height % 2 == 0
    ensures WrittenLength(width, height) == OutputLength(width, height)
  {
    WrittenFitsOutput(width, height);
  }

  /** What an NV21 repack of a `width` by `height` frame is: the allocated
      length, each luma sample at its row-major position, each chroma pair
      V then U, and the bytes past the last pair left at zero. */
  ghost predicate IsNv21Of(out: seq<bv8>, width: nat, height: nat, y: Plane, u: Plane, v: Plane)
    requires Readable(y, height, width)
    requires Readable(u, height / 2, width / 2)
    requires Readable(v, height / 2, width / 2)
  {
    && |out| == OutputLength(width, height)
    && (forall r: nat, c: nat :: r < height && c < width ==>
          RowMajor(width, r, c) < |out| && out[RowMajor(width, r, c)] == Sample(y, r, c))
    && (forall r: nat, c: nat :: r < height / 2 && c < width / 2 ==>
          ChromaOffset(width, height, r, c) + 1 < |out|
          && out[ChromaOffset(width, height, r, c)] == Sample(v, r, c)
          && out[ChromaOffset(width, height, r, c) + 1] == Sample(u, r, c))
    && (forall k :: WrittenLength(width, height) <= k < |out| ==> out[k] == 0)
  }

  /** Repacks a YUV_420_888 frame into NV21. Every read stays inside its
      plane only when the planes are large enough for their strides, which
      is the precondition; the source reads `planes[1]` as U and
      `planes[2]` as V and writes V first. */
  method Yuv420ToNv21(width: nat, height: nat, y: Plane, u: Plane, v: Plane)
    returns (nv21: array<bv8>)
    requires Readable(y, height, width)
    requires Readable(u, height / 2, width / 2)
    requires Readable(v, height / 2, width / 2)
    ensures IsNv21Of(nv21[..], width, height, y, u, v)
  {
    WrittenFitsOutput(width, height);
    LumaRows(width, height);
    nv21 := new bv8[OutputLength(width, height)](_ => 0);
    var outputOffset := CopyLuma(nv21, width, height, y);
    outputOffset := CopyChroma(nv21, width, height, u, v, outputOffset);
  }

  /** Whether every plane read of the repack is in bounds, decided from the
      last sample of each plane (see `ReadableIffLastSampleFits`). */
  predicate PlaneFits(p: Plane, rows: nat, cols: nat)
  {
    rows == 0 || cols == 0 || SampleIndex(p, rows - 1, cols - 1) < |p.buffer|
  }

  /** The repack as its caller sees it: a plane too short for its strides
      makes a buffer read throw, which the capture handler catches and turns
      into "no image"; otherwise the NV21 bytes. */
  method TryYuv420ToNv21(width: nat, height: nat, y: Plane, u: Plane, v: Plane)
    returns (r: Option<seq<bv8>>)
    ensures r.Some? <==>
              Readable(y, height, width) && Readable(u, height / 2, width / 2) && Readable(v, height / 2, width / 2)
    ensures r.Some? ==> IsNv21Of(r.value, width, height, y, u, v)
  {
    if height > 0 && width > 0 {
      ReadableIffLastSampleFits(y, height, width);
    }
    if height / 2 > 0 && width / 2 > 0 {
      ReadableIffLastSampleFits(u, height / 2, width / 2);
      ReadableIffLastSampleFits(v, height / 2, width / 2);
    }
    if PlaneFits(y, height, width) && PlaneFits(u, height / 2, width / 2) && PlaneFits(v, height / 2, width / 2) {
      var nv21 := Yuv420ToNv21(width, height, y, u, v);
      r := Some(nv21[..]);
    } else {
      r := None;
    }
  }

  /** Distinct cells of a grid occupy distinct positions. */
  lemma {:induction false} RowMajorInjective(cols: nat, r1: nat, c1: nat, r2: nat, c2: nat)
    requires c1 < cols && c2 < cols
    requires RowMajor(cols, r1, c1) == RowMajor(cols, r2, c2)
    ensures r1 == r2 && c1 == c2
  {
    if r1 < r2 {
      RowMajorBelowRow(cols, r2, r1, c1);
      RowLayout(cols, r2);
      assert false;
    } else if r2 < r1 {
      RowMajorBelowRow(cols, r1, r2, c2);
      RowLayout(cols, r1);
      assert false;
    } else {
      RowLayout(cols, r1);
    }
  }

  /** Every position below `rows` full rows is the position of some cell. */
  lemma {:induction false} RowMajorCovers(rows: nat, cols: nat, k: nat)
    requires k < RowMajor(cols, rows, 0)
    ensures exists r: nat, c: nat :: r < rows && c < cols && k == RowMajor(cols, r, c)
  {
    RowMajorIsProduct(cols, rows, 0);
    var r, c := k / cols, k % cols;
    RowMajorIsProduct(cols, r, c);
    assert k == RowMajor(cols, r, c);
    if r >= rows {
      RowStartMonotone(cols, rows, r);
      RowLayout(cols, r);
      assert false;
    }
  }

  /** Every position below `WrittenLength` is a luma cell, or the V or the
      U byte of a chroma cell; by `RowMajorInjective` no two cells share a
      position, so the repack writes each of these bytes exactly once. */
  lemma {:induction false} WrittenPositionCovered(width: nat, height: nat, k: nat)
    requires k < WrittenLength(width, height)
    ensures || (exists r: nat, c: nat :: r < height && c < width && k == RowMajor(width, r, c))
            || (exists r: nat, c: nat :: r < height / 2 && c < width / 2
                  && (k == ChromaOffset(width, height, r, c) || k == ChromaOffset(width, height, r, c) + 1))
  {
    if k < LumaSize(width, height) {
      LumaRows(width, height);
      RowMajorCovers(height, width, k);
    } else {
      var j := (k - LumaSize(width, height)) / 2;
      RowMajorCovers(height / 2, width / 2, j);
      var r: nat, c: nat :| r < height / 2 && c < width / 2 && j == RowMajor(width / 2, r, c);
      assert k == ChromaOffset(width, height, r, c) || k == ChromaOffset(width, height, r, c) + 1;
    }
  }

  /** The description above leaves nothing open: at most one byte sequence
      is the NV21 repack of a given frame, whatever its dimensions. */
  lemma {:induction false} Nv21Determined(a: seq<bv8>, b: seq<bv8>, width: nat, height: nat, y: Plane, u: Plane, v: Plane)
    requires Readable(y, height, width)
    requires Readable(u, height / 2, width / 2)
    requires Readable(v, height / 2, width / 2)
    requires IsNv21Of(a, width, height, y, u, v) && IsNv21Of(b, width, height, y, u, v)
    ensures a == b
  {
    forall k | 0 <= k < |a|
      ensures a[k] == b[k]
    {
      if k < WrittenLength(width, height) {
        WrittenPositionCovered(width, height, k);
      }
    }
  }

  /** The first `rows` rows of the Y plane sit at their row-major slots,
      all below the start of row `rows`. */
  ghost predicate LumaRowsPlaced(out: array<bv8>, width: nat, rows: nat, y: Plane)
    reads out
  {
    forall r: nat, c: nat :: r < rows && c < width ==>
      && RowMajor(width, r, c) < RowMajor(width, rows, 0)
      && RowMajor(width, r, c) < out.Length
      && SampleIndex(y, r, c) < |y.buffer|
      && out[RowMajor(width, r, c)] == Sample(y, r, c)
  }

  /** The first `rows` rows of the chroma grid sit as V,U pairs at their
      slots, all below the start of chroma row `rows`. */
  ghost predicate ChromaRowsPlaced(out: array<bv8>, width: nat, height: nat, rows: nat, u: Plane, v: Plane)
    reads out
  {
    forall r: nat, c: nat :: r < rows && c < width / 2 ==>
      && ChromaOffset(width, height, r, c) + 1 < ChromaOffset(width, height, rows, 0)
      && ChromaOffset(width, height, r, c) + 1 < out.Length
      && SampleIndex(v, r, c) < |v.buffer| && SampleIndex(u, r, c) < |u.buffer|
      && out[ChromaOffset(width, height, r, c)] == Sample(v, r, c)
      && out[ChromaOffset(width, height, r, c) + 1] == Sample(u, r, c)
  }

  /** Everything from `start` on is still zero. */
  ghost predicate ZeroFrom(out: array<bv8>, start: nat)
    reads out
  {
    forall k :: start <= k < out.Length ==> out[k] == 0
  }

  /** The luma loops: row by row, `width` samples per row, each taken from
      the Y plane at its row and pixel stride. Returns the running output
      offset, which ends after `height` full rows (the size of the luma
      block, by `LumaRows`). */
  method CopyLuma(nv21: array<bv8>, width: nat, height: nat, y: Plane) returns (outputOffset: nat)
    modifies nv21
    requires Readable(y, height, width)
    requires RowMajor(width, height, 0) <= nv21.Length
    requires forall k :: 0 <= k < nv21.Length ==> nv21[k] == 0
    ensures outputOffset == RowMajor(width, height, 0)
    ensures forall r: nat, c: nat :: r < height && c < width ==>
              RowMajor(width, r, c) < outputOffset && nv21[RowMajor(width, r, c)] == Sample(y, r, c)
    ensures forall k :: outputOffset <= k < nv21.Length ==> nv21[k] == 0
  {
    outputOffset := 0;
    for row := 0 to height
      invariant outputOffset == RowMajor(width, row, 0) <= RowMajor(width, height, 0)
      invariant LumaRowsPlaced(nv21, width, row, y)
      invariant ZeroFrom(nv21, outputOffset)
    {
      RowStartMonotone(width, row + 1, height);
      AppendLumaRow(nv21, width, height, y, row, outputOffset);
      outputOffset := outputOffset + width;
    }
  }

  /** One iteration of the outer luma loop: with rows `0 .. row-1` in place,
      copying row `row` leaves rows `0 .. row` in place. */
  method AppendLumaRow(nv21: array<bv8>, width: nat, height: nat, y: Plane, row: nat, base: nat)
    modifies nv21
    requires Readable(y, height, width) && row < height
    requires base == RowMajor(width, row, 0) && base + width <= nv21.Length
    requires LumaRowsPlaced(nv21, width, row, y)
    requires ZeroFrom(nv21, base)
    ensures LumaRowsPlaced(nv21, width, row + 1, y)
    ensures ZeroFrom(nv21, base + width)
  {
    RowLayout(width, row);
    ghost var before := nv21[..];
    CopyLumaRow(nv21, base, width, y, row);
    forall r: nat, c: nat | r < row && c < width
      ensures RowMajor(width, r, c) < RowMajor(width, row + 1, 0)
      ensures RowMajor(width, r, c) < nv21.Length
      ensures SampleIndex(y, r, c) < |y.buffer|
      ensures nv21[RowMajor(width, r, c)] == Sample(y, r, c)
    {
      assert nv21[RowMajor(width, r, c)] == before[RowMajor(width, r, c)];
    }
    forall c: nat | c < width
      ensures RowMajor(width, row, c) < RowMajor(width, row + 1, 0)
      ensures RowMajor(width, row, c) < nv21.Length
      ensures SampleIndex(y, row, c) < |y.buffer|
      ensures nv21[RowMajor(width, row, c)] == Sample(y, row, c)
    {
      assert RowMajor(width, row, c) == base + c;
    }
  }

  /** One pass of the inner luma loop: the `width` samples of Y row `row`,
      written from output offset `base` on. */
  method CopyLumaRow(nv21: array<bv8>, base: nat, width: nat, y: Plane, row: nat)
    modifies nv21
    requires base + width <= nv21.Length
    requires forall c: nat :: c < width ==> SampleIndex(y, row, c) < |y.buffer|
    ensures forall k :: 0 <= k < base ==> nv21[k] == old(nv21[k])
    ensures forall k :: base + width <= k < nv21.Length ==> nv21[k] == old(nv21[k])
    ensures forall c: nat :: c < width ==> nv21[base + c] == Sample(y, row, c)
  {
    var outputOffset := base;
    for col := 0 to width
      invariant outputOffset == base + col
      invariant forall k :: 0 <= k < base ==> nv21[k] == old(nv21[k])
      invariant forall k :: outputOffset <= k < nv21.Length ==> nv21[k] == old(nv21[k])
      invariant forall c: nat :: c < col ==> nv21[base + c] == Sample(y, row, c)
    {
      nv21[outputOffset] := y.buffer[SampleIndex(y, row, col)];
      outputOffset := outputOffset + 1;
    }
  }

  /** The chroma loops: `height/2` rows of `width/2` pairs, V before U,
      continuing the running output offset where the luma loops left it. */
  method CopyChroma(nv21: array<bv8>, width: nat, height: nat, u: Plane, v: Plane, start: nat)
    returns (outputOffset: nat)
    modifies nv21
    requires Readable(u, height / 2, width / 2)
    requires Readable(v, height / 2, width / 2)
    requires start == LumaSize(width, height)
    requires WrittenLength(width, height) <= nv21.Length
    requires forall k :: start <= k < nv21.Length ==> nv21[k] == 0
    ensures outputOffset == WrittenLength(width, height)
    ensures forall k :: 0 <= k < start ==> nv21[k] == old(nv21[k])
    ensures forall r: nat, c: nat :: r < height / 2 && c < width / 2 ==>
              ChromaOffset(width, height, r, c) + 1 < nv21.Length
              && nv21[ChromaOffset(width, height, r, c)] == Sample(v, r, c)
              && nv21[ChromaOffset(width, height, r, c) + 1] == Sample(u, r, c)
    ensures forall k :: WrittenLength(width, height) <= k < nv21.Length ==> nv21[k] == 0
  {
    var chromaHeight, chromaWidth := height / 2, width / 2;
    outputOffset := start;
    for row := 0 to chromaHeight
      invariant outputOffset == ChromaOffset(width, height, row, 0) <= WrittenLength(width, height)
      invariant forall k :: 0 <= k < start ==> nv21[k] == old(nv21[k])
      invariant ChromaRowsPlaced(nv21, width, height, row, u, v)
      invariant ZeroFrom(nv21, outputOffset)
    {
      RowStartMonotone(chromaWidth, row + 1, chromaHeight);
      AppendChromaRow(nv21, width, height, u, v, row, outputOffset);
      outputOffset := outputOffset + 2 * chromaWidth;
    }
  }

  /** One iteration of the outer chroma loop: with chroma rows `0 .. row-1`
      in place, copying row `row` leaves rows `0 .. row` in place. */
  method AppendChromaRow(nv21: array<bv8>, width: nat, height: nat, u: Plane, v: Plane, row: nat, base: nat)
    modifies nv21
    requires Readable(u, height / 2, width / 2) && Readable(v, height / 2, width / 2)
    requires row < height / 2
    requires base == ChromaOffset(width, height, row, 0) && base + 2 * (width / 2) <= nv21.Length
    requires ChromaRowsPlaced(nv21, width, height, row, u, v)
    requires ZeroFrom(nv21, base)
    ensures forall k :: 0 <= k < base ==> nv21[k] == old(nv21[k])
    ensures ChromaRowsPlaced(nv21, width, height, row + 1, u, v)
    ensures ZeroFrom(nv21, base + 2 * (width / 2))
  {
    RowLayout(width / 2, row);
    ghost var before := nv21[..];
    CopyPairs(nv21, base, width / 2, u, v, row);
    forall r: nat, c: nat | r < row + 1 && c < width / 2
      ensures ChromaOffset(width, height, r, c) + 1 < ChromaOffset(width, height, row + 1, 0)
      ensures ChromaOffset(width, height, r, c) + 1 < nv21.Length
      ensures SampleIndex(v, r, c) < |v.buffer| && SampleIndex(u, r, c) < |u.buffer|
      ensures nv21[ChromaOffset(width, height, r, c)] == Sample(v, r, c)
      ensures nv21[ChromaOffset(width, height, r, c) + 1] == Sample(u, r, c)
    {
      if r < row {
        assert nv21[ChromaOffset(width, height, r, c)] == before[ChromaOffset(width, height, r, c)];
        assert nv21[ChromaOffset(width, height, r, c) + 1] == before[ChromaOffset(width, height, r, c) + 1];
      } else {
        assert ChromaOffset(width, height, r, c) == base + 2 * c;
      }
    }
  }

  /** One pass of the inner chroma loop: `count` V,U pairs of chroma row
      `row`, written from output offset `base` on. */
  method CopyPairs(nv21: array<bv8>, base: nat, count: nat, u: Plane, v: Plane, row: nat)
    modifies nv21
    requires base + 2 * count <= nv21.Length
    requires forall c: nat :: c < count ==> SampleIndex(u, row, c) < |u.buffer|
    requires forall c: nat :: c < count ==> SampleIndex(v, row, c) < |v.buffer|
    ensures forall k :: 0 <= k < base ==> nv21[k] == old(nv21[k])
    ensures forall k :: base + 2 * count <= k < nv21.Length ==> nv21[k] == old(nv21[k])
    ensures forall c: nat :: c < count ==>
              nv21[base + 2 * c] == Sample(v, row, c) && nv21[base + 2 * c + 1] == Sample(u, row, c)
  {
    var outputOffset := base;
    for col := 0 to count
      invariant outputOffset == base + 2 * col
      invariant forall k :: 0 <= k < base ==> nv21[k] == old(nv21[k])
      invariant forall k :: outputOffset <= k < nv21.Length ==> nv21[k] == old(nv21[k])
      invariant forall c: nat :: c < col ==>
                  nv21[base + 2 * c] == Sample(v, row, c) && nv21[base + 2 * c + 1] == Sample(u, row, c)
    {
      nv21[outputOffset] := v.buffer[SampleIndex(v, row, col)];
      outputOffset := outputOffset + 1;
      nv21[outputOffset] := u.buffer[SampleIndex(u, row, col)];
      outputOffset := outputOffset + 1;
    }
  }
}
