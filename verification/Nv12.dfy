/** Where an RGB to NV12 conversion writes: the plane ranges a destination must have, and the texels
    each compute invocation stores. */
module Nv12 {
  import opened Wrappers
  import opened Integers

  datatype Plane = Plane(fd: int, stride: uint32, offset: uint32, size: uint32)

  datatype DmaBuf = DmaBuf(width: uint32, height: uint32, drmFormat: uint32, modifier: uint64, totalSize: uint64,
                           bufferId: nat, planes: seq<Plane>)

  const FORMAT_NV12: uint32 := 0x3231_564E
  const MODIFIER_LINEAR: uint64 := 0

  /** The bytes of a plane, if they lie inside the buffer. The product fits 64 bits. */
  function CheckedPlaneRange(offset: uint32, stride: uint32, rows: uint32, totalSize: uint64): Option<nat> {
    if rows == 0 || stride == 0 then None
    else
      var length := stride * rows % UINT64;
      if offset > totalSize || length > totalSize - offset then None else Some(length)
  }

  predicate ValidDestination(source: DmaBuf, destination: DmaBuf) {
    && destination.drmFormat == FORMAT_NV12 && destination.modifier == MODIFIER_LINEAR
    && |destination.planes| == 2
    && source.width == destination.width && source.height == destination.height
    && destination.width % 2 == 0 && destination.height % 2 == 0
    && destination.planes[0].stride == destination.planes[1].stride
    && destination.planes[1].stride % 2 == 0
  }

  datatype Limits = Limits(offsetAlignment: uint64, maxTexels: uint32) {
    predicate Valid() { offsetAlignment > 0 }
  }

  /** Both planes can be bound as texel buffers. */
  predicate Addressable(destination: DmaBuf, limits: Limits)
    requires |destination.planes| == 2 && limits.Valid()
  {
    var y, uv := destination.planes[0], destination.planes[1];
    var yRange := CheckedPlaneRange(y.offset, y.stride, destination.height, destination.totalSize);
    var uvRange := CheckedPlaneRange(uv.offset, uv.stride, destination.height / 2, destination.totalSize);
    && yRange.Some? && uvRange.Some?
    && y.offset % limits.offsetAlignment == 0 && uv.offset % limits.offsetAlignment == 0
    && yRange.value <= limits.maxTexels && uvRange.value / 2 <= limits.maxTexels
  }

  lemma MulLess(a: nat, b: nat, k: nat)
    ensures a <= b ==> a * k <= b * k
    ensures a < b ==> a * k + k <= b * k
  {
    if a < b {
      assert (a + 1) * k <= b * k;
    }
  }

  /** The length that was checked is the true product, and the plane ends inside the buffer. */
  lemma PlaneRangeExact(offset: uint32, stride: uint32, rows: uint32, totalSize: uint64)
    ensures CheckedPlaneRange(offset, stride, rows, totalSize)
         == if rows > 0 && stride > 0 && offset + stride * rows <= totalSize then Some(stride * rows) else None
  {
    MulLess(stride, UINT32 - 1, rows);
    MulLess(rows, UINT32 - 1, UINT32 - 1);
    assert 0 <= stride * rows < UINT64;
  }

  // ----- the compute shader's index arithmetic -----

  datatype Parameters = Parameters(width: uint32, height: uint32, stride: uint32)

  /** The first index of row `y`. */
  function Rows(y: nat, stride: nat): nat {
    y * stride
  }

  /** Row-major position of a texel. */
  function Position(x: nat, y: nat, stride: nat): nat {
    Rows(y, stride) + x
  }

  function Wrap(x: int): uint32 {
    x % UINT32
  }

  /** `int(x)` of an unsigned value. */
  function Signed(x: uint32): int {
    if x < 0x8000_0000 then x else x - UINT32
  }

  /** An invocation outside the picture returns at once. */
  predicate Active(p: Parameters, gx: uint32, gy: uint32) {
    Wrap(gx * 2) < p.width && Wrap(gy * 2) < p.height
  }

  function LumaIndex(p: Parameters, gx: uint32, gy: uint32, dx: nat, dy: nat): int {
    var firstRow := Wrap(Wrap(Rows(Wrap(gy * 2), p.stride)) + Wrap(gx * 2));
    var row := if dy == 0 then firstRow else Wrap(firstRow + p.stride);
    Signed(Wrap(row + dx))
  }

  function ChromaIndex(p: Parameters, gx: uint32, gy: uint32): int {
    Signed(Wrap(Wrap(Rows(gy, p.stride / 2)) + gx))
  }

  /** The dispatched grid: workgroups of 8 by 8 invocations. */
  predicate InGrid(p: Parameters, gx: nat, gy: nat) {
    gx < Wrap(p.width + 15) / 16 * 8 && gy < Wrap(p.height + 15) / 16 * 8
  }

  /** The parameters of a destination that passed the checks. */
  predicate Dispatchable(p: Parameters) {
    && p.width % 2 == 0 && p.height % 2 == 0 && p.stride % 2 == 0
    && 0 < p.width && 0 < p.height && 0 < p.stride
    && Rows(p.height, p.stride) < UINT32
  }

  /** Texels have positions of their own, and the last one fits the `int` that the shader stores to. */
  predicate Indexable(p: Parameters)
    requires Dispatchable(p)
  {
    p.width <= p.stride && Position(p.width - 1, p.height - 1, p.stride) < 0x8000_0000
  }

  lemma RowsStep(y: nat, stride: nat)
    ensures Rows(y + 1, stride) == Rows(y, stride) + stride
  {
  }

  lemma RowsOrdered(y: nat, y': nat, stride: nat)
    requires y < y'
    ensures Rows(y, stride) + stride <= Rows(y', stride)
  {
    MulLess(y, y', stride);
  }

  lemma RowsHalf(y: nat, stride: nat)
    requires y % 2 == 0 && stride % 2 == 0
    ensures Rows(y, stride) == 4 * Rows(y / 2, stride / 2)
  {
    var a, b := y / 2, stride / 2;
    assert (2 * a) * (2 * b) == 4 * (a * b);
  }

  lemma RowsAtLeast(y: nat, stride: nat)
    ensures stride > 0 ==> y <= Rows(y, stride)
    ensures y > 0 ==> stride <= Rows(y, stride)
  {
    MulLess(1, stride, y);
    MulLess(1, y, stride);
  }

  lemma PositionInside(x: nat, y: nat, width: nat, height: nat, stride: nat)
    requires x < width <= stride && y < height
    ensures Position(x, y, stride) <= Position(width - 1, height - 1, stride) < Rows(height, stride)
  {
    hide Rows;
    RowsOrdered(height - 1, height, stride);
    if y < height - 1 {
      RowsOrdered(y, height - 1, stride);
    }
  }

  /** No intermediate value wraps: the index is the row-major position, as an `int`. */
  lemma LumaIndexIs(p: Parameters, gx: uint32, gy: uint32, dx: nat, dy: nat)
    requires Dispatchable(p) && p.width <= p.stride && gx * 2 < p.width && gy * 2 < p.height && dx < 2 && dy < 2
    ensures var position := Position(gx * 2 + dx, gy * 2 + dy, p.stride);
      position < UINT32 && LumaIndex(p, gx, gy, dx, dy) == Signed(position)
  {
    hide Rows, Wrap, Signed;
    PositionInside(gx * 2 + 1, gy * 2 + 1, p.width, p.height, p.stride);
    RowsStep(gy * 2, p.stride);
    var first, second := Rows(gy * 2, p.stride), Rows(gy * 2 + 1, p.stride);
    WrapIs(gy * 2);
    WrapIs(gx * 2);
    WrapIs(first);
    WrapIs(first + gx * 2);
    if dy == 0 {
      WrapIs(first + gx * 2 + dx);
    } else {
      WrapIs(first + gx * 2 + p.stride);
      WrapIs(first + gx * 2 + p.stride + dx);
    }
  }

  lemma WrapIs(x: nat)
    ensures x < UINT32 ==> Wrap(x) == x
    ensures x < 0x8000_0000 ==> Signed(x) == x
  {
  }

  lemma ChromaIndexIs(p: Parameters, gx: uint32, gy: uint32)
    requires Dispatchable(p) && p.width <= p.stride && gx * 2 < p.width && gy * 2 < p.height
    ensures ChromaIndex(p, gx, gy) == Position(gx, gy, p.stride / 2) < Rows(p.height / 2, p.stride / 2)
  {
    hide Rows;
    RowsOrdered(gy, p.height / 2, p.stride / 2);
    RowsHalf(p.height, p.stride);
  }

  lemma SizesBounded(p: Parameters)
    requires Dispatchable(p)
    ensures p.stride < 0x8000_0000 && p.height < 0x8000_0000
  {
    hide Rows;
    RowsHalf(p.height, p.stride);
    RowsAtLeast(p.height / 2, p.stride / 2);
  }

  lemma GroupsCover(size: uint32, g: nat)
    requires size + 15 < UINT32
    ensures g * 2 < size ==> g < Wrap(size + 15) / 16 * 8
    ensures g < Wrap(size + 15) / 16 * 8 ==> g < 0x8000_0000 && Wrap(g * 2) == g * 2
  {
    WrapIs(size + 15);
  }

  lemma GridCovers(p: Parameters, gx: nat, gy: nat)
    requires Dispatchable(p) && p.width <= p.stride
    ensures gx * 2 < p.width && gy * 2 < p.height ==> InGrid(p, gx, gy)
    ensures InGrid(p, gx, gy) ==> gx < 0x8000_0000 && gy < 0x8000_0000
    ensures InGrid(p, gx, gy) ==> (Active(p, gx, gy) <==> gx * 2 < p.width && gy * 2 < p.height)
  {
    hide Rows, Wrap;
    SizesBounded(p);
    GroupsCover(p.width, gx);
    GroupsCover(p.height, gy);
  }

  /** Row-major positions are distinct within a stride. */
  lemma PositionsDistinct(x: nat, y: nat, x': nat, y': nat, stride: nat)
    requires x < stride && x' < stride && Position(x, y, stride) == Position(x', y', stride)
    ensures x == x' && y == y'
  {
    hide Rows;
    if y < y' {
      RowsOrdered(y, y', stride);
    } else if y' < y {
      RowsOrdered(y', y, stride);
    }
  }

  /** One stored luma texel: which invocation, and which of its four. */
  datatype LumaWrite = LumaWrite(gx: nat, gy: nat, dx: nat, dy: nat)

  ghost predicate WritesLuma(p: Parameters, w: LumaWrite, index: int) {
    && InGrid(p, w.gx, w.gy) && w.gx < UINT32 && w.gy < UINT32 && Active(p, w.gx, w.gy)
    && w.dx < 2 && w.dy < 2 && LumaIndex(p, w.gx, w.gy, w.dx, w.dy) == index
  }

  lemma LumaWriteIs(p: Parameters, w: LumaWrite, index: int)
    requires Dispatchable(p) && p.width <= p.stride
    ensures WritesLuma(p, w, index)
       <==> (&& w.gx * 2 < p.width && w.gy * 2 < p.height && w.dx < 2 && w.dy < 2
             && Position(w.gx * 2 + w.dx, w.gy * 2 + w.dy, p.stride) < UINT32
             && index == Signed(Position(w.gx * 2 + w.dx, w.gy * 2 + w.dy, p.stride)))
  {
    hide Rows, LumaIndex, Position, Signed;
    GridCovers(p, w.gx, w.gy);
    if w.gx * 2 < p.width && w.gy * 2 < p.height && w.dx < 2 && w.dy < 2 {
      LumaIndexIs(p, w.gx, w.gy, w.dx, w.dy);
    }
  }

  /** A stored texel is visible, and its index is its position. */
  lemma LumaWriteAt(p: Parameters, w: LumaWrite, index: int)
    requires Dispatchable(p) && Indexable(p)
    ensures WritesLuma(p, w, index)
       <==> (&& w.gx * 2 < p.width && w.gy * 2 < p.height && w.dx < 2 && w.dy < 2
             && index == Position(w.gx * 2 + w.dx, w.gy * 2 + w.dy, p.stride))
  {
    hide Rows, WritesLuma, Position;
    LumaWriteIs(p, w, index);
    if w.gx * 2 < p.width && w.gy * 2 < p.height && w.dx < 2 && w.dy < 2 {
      PositionInside(w.gx * 2 + w.dx, w.gy * 2 + w.dy, p.width, p.height, p.stride);
      WrapIs(Position(w.gx * 2 + w.dx, w.gy * 2 + w.dy, p.stride));
    }
  }

  /** Every visible luma texel is stored by exactly one invocation. */
  lemma LumaTiled(p: Parameters, x: nat, y: nat)
    requires Dispatchable(p) && Indexable(p) && x < p.width && y < p.height
    ensures var index := Position(x, y, p.stride);
      && WritesLuma(p, LumaWrite(x / 2, y / 2, x % 2, y % 2), index)
      && forall v :: WritesLuma(p, v, index) ==> v == LumaWrite(x / 2, y / 2, x % 2, y % 2)
  {
    hide Rows, Position, WritesLuma;
    var w := LumaWrite(x / 2, y / 2, x % 2, y % 2);
    var index := Position(x, y, p.stride);
    assert x == w.gx * 2 + w.dx && y == w.gy * 2 + w.dy;
    LumaWriteAt(p, w, index);
    forall v | WritesLuma(p, v, index) ensures v == w {
      LumaWriteAt(p, v, index);
      PositionsDistinct(v.gx * 2 + v.dx, v.gy * 2 + v.dy, x, y, p.stride);
    }
  }

  /** Nothing but visible luma texels is stored, and all of it inside the checked range. */
  lemma LumaOnlyVisible(p: Parameters, v: LumaWrite, index: int)
    requires Dispatchable(p) && Indexable(p) && WritesLuma(p, v, index)
    ensures 0 <= index < Rows(p.height, p.stride)
    ensures exists x: nat, y: nat :: x < p.width && y < p.height && index == Position(x, y, p.stride)
  {
    hide Rows, LumaIndex, Position;
    LumaWriteAt(p, v, index);
    var x, y := v.gx * 2 + v.dx, v.gy * 2 + v.dy;
    PositionInside(x, y, p.width, p.height, p.stride);
    assert x < p.width && y < p.height && index == Position(x, y, p.stride);
  }

  ghost predicate WritesChroma(p: Parameters, gx: nat, gy: nat, index: int) {
    InGrid(p, gx, gy) && gx < UINT32 && gy < UINT32 && Active(p, gx, gy) && ChromaIndex(p, gx, gy) == index
  }

  /** Every chroma texel of the picture is stored by exactly one invocation, inside its range. */
  lemma ChromaTiled(p: Parameters, cx: nat, cy: nat)
    requires Dispatchable(p) && p.width <= p.stride && cx * 2 < p.width && cy * 2 < p.height
    ensures var index := Position(cx, cy, p.stride / 2);
      && WritesChroma(p, cx, cy, index) && 0 <= index < Rows(p.height / 2, p.stride / 2)
      && forall gx, gy :: WritesChroma(p, gx, gy, index) ==> gx == cx && gy == cy
  {
    hide Rows, Position, ChromaIndex;
    GridCovers(p, cx, cy);
    ChromaIndexIs(p, cx, cy);
    var index := Position(cx, cy, p.stride / 2);
    forall gx: nat, gy: nat | WritesChroma(p, gx, gy, index) ensures gx == cx && gy == cy {
      GridCovers(p, gx, gy);
      ChromaIndexIs(p, gx, gy);
      PositionsDistinct(gx, gy, cx, cy, p.stride / 2);
    }
  }

  // ----- what the checks leave out -----

  ghost predicate OneWrite(p: Parameters, index: int) {
    exists w :: WritesLuma(p, w, index) && forall v :: WritesLuma(p, v, index) ==> v == w
  }

  /** Every visible luma texel is stored by exactly one of the stores of all invocations. */
  ghost predicate StoredOnce(p: Parameters) {
    forall x: nat, y: nat :: x < p.width && y < p.height ==> OneWrite(p, Position(x, y, p.stride))
  }

  /** No check compares the stride with the width, or the size with the range of an `int`. The shader
      stores each visible texel once exactly when both hold. */
  lemma StrideNeeded(p: Parameters)
    requires Dispatchable(p)
    ensures StoredOnce(p) <==> Indexable(p)
  {
    hide Rows, Position, WritesLuma;
    if Indexable(p) {
      forall x: nat, y: nat | x < p.width && y < p.height ensures OneWrite(p, Position(x, y, p.stride)) {
        LumaTiled(p, x, y);
      }
    } else if p.width <= p.stride {
      LargeIndex(p, Position(p.width - 1, p.height - 1, p.stride));
    } else {
      ShortStride(p);
      RowZero(p.stride, p.stride);
    }
  }

  lemma RowZero(x: nat, stride: nat)
    ensures Position(x, 0, stride) == x
  {
  }

  /** An index is never beyond the range of an `int`. */
  lemma LargeIndex(p: Parameters, index: int)
    requires index >= 0x8000_0000
    ensures !OneWrite(p, index)
  {
  }

  /** With a stride that is too short, the first texel of the second row is also texel `stride` of the
      first; with a width that wraps the group count, nothing is stored at all. */
  lemma ShortStride(p: Parameters)
    requires Dispatchable(p) && p.stride < p.width
    ensures !OneWrite(p, p.stride)
  {
    SizesBounded(p);
    if p.width + 15 < UINT32 {
      FirstRowWrites(p);
      SecondRowWrites(p);
      hide WritesLuma;
      assert LumaWrite(p.stride / 2, 0, 0, 0) != LumaWrite(0, 0, 0, 1);
    } else {
      assert Wrap(p.width + 15) / 16 == 0;
    }
  }

  lemma FirstRowWrites(p: Parameters)
    requires Dispatchable(p) && p.stride < p.width && p.width + 15 < UINT32
    ensures WritesLuma(p, LumaWrite(p.stride / 2, 0, 0, 0), p.stride)
  {
    SizesBounded(p);
    GroupsCover(p.width, p.stride / 2);
    GroupsCover(p.height, 0);
    assert p.stride / 2 * 2 == p.stride && Rows(0, p.stride) == 0;
    hide Rows;
    WrapIs(p.stride);
  }

  lemma SecondRowWrites(p: Parameters)
    requires Dispatchable(p) && p.stride < p.width && p.width + 15 < UINT32
    ensures WritesLuma(p, LumaWrite(0, 0, 0, 1), p.stride)
  {
    SizesBounded(p);
    GroupsCover(p.width, 0);
    GroupsCover(p.height, 0);
    assert Rows(0, p.stride) == 0;
    hide Rows;
    WrapIs(p.stride);
  }

  ghost predicate OneChromaWrite(p: Parameters, index: int) {
    exists gx, gy ::
      && WritesChroma(p, gx, gy, index)
      && forall gx', gy' :: WritesChroma(p, gx', gy', index) ==> gx' == gx && gy' == gy
  }

  /** Every chroma texel of the picture is stored by exactly one invocation. */
  ghost predicate ChromaStoredOnce(p: Parameters) {
    forall cx: nat, cy: nat :: cx * 2 < p.width && cy * 2 < p.height ==> OneChromaWrite(p, Position(cx, cy, p.stride / 2))
  }

  /** A picture with one row of chroma texels has them in order whatever the stride; any other needs a
      stride of at least the width. */
  lemma ChromaStrideNeeded(p: Parameters)
    requires Dispatchable(p)
    ensures ChromaStoredOnce(p) <==> p.width <= p.stride || (p.height == 2 && p.width + 15 < UINT32)
  {
    hide Rows, Position, WritesChroma;
    if p.width <= p.stride {
      forall cx: nat, cy: nat | cx * 2 < p.width && cy * 2 < p.height
        ensures OneChromaWrite(p, Position(cx, cy, p.stride / 2))
      {
        ChromaTiled(p, cx, cy);
      }
    } else if p.width + 15 >= UINT32 {
      NoGroups(p, Position(0, 0, p.stride / 2));
      assert 0 * 2 < p.width;
    } else if p.height == 2 {
      forall cx: nat, cy: nat | cx * 2 < p.width && cy * 2 < p.height
        ensures OneChromaWrite(p, Position(cx, cy, p.stride / 2))
      {
        RowZero(cx, p.stride / 2);
        OneChromaRow(p, cx);
      }
    } else {
      RowZero(p.stride / 2, p.stride / 2);
      SharedChroma(p);
    }
  }

  lemma NoGroups(p: Parameters, index: int)
    requires p.width + 15 >= UINT32
    ensures !OneChromaWrite(p, index)
  {
    assert Wrap(p.width + 15) / 16 == 0;
  }

  /** Where the invocations of the first row store, and the first one of the second. */
  lemma FirstChromaWrites(p: Parameters, gx: nat, gy: nat, index: int)
    requires Dispatchable(p) && p.stride < p.width && p.width + 15 < UINT32 && gy == 0
    ensures WritesChroma(p, gx, gy, index) <==> gx * 2 < p.width && index == gx
  {
    SizesBounded(p);
    GroupsCover(p.width, gx);
    GroupsCover(p.height, 0);
    assert Rows(0, p.stride / 2) == 0;
    hide Rows;
    WrapIs(gx);
  }

  lemma SharedChroma(p: Parameters)
    requires Dispatchable(p) && p.stride < p.width && p.width + 15 < UINT32 && p.height > 2
    ensures !OneChromaWrite(p, p.stride / 2)
  {
    SizesBounded(p);
    FirstChromaWrites(p, p.stride / 2, 0, p.stride / 2);
    SecondChromaWrites(p);
    hide WritesChroma;
    assert WritesChroma(p, p.stride / 2, 0, p.stride / 2) && WritesChroma(p, 0, 1, p.stride / 2);
  }

  lemma SecondChromaWrites(p: Parameters)
    requires Dispatchable(p) && p.stride < p.width && p.width + 15 < UINT32 && p.height > 2
    ensures WritesChroma(p, 0, 1, p.stride / 2)
  {
    SizesBounded(p);
    GroupsCover(p.width, 0);
    GroupsCover(p.height, 1);
    assert Rows(1, p.stride / 2) == p.stride / 2;
    hide Rows;
    WrapIs(p.stride / 2);
  }

  lemma OneChromaRow(p: Parameters, cx: nat)
    requires Dispatchable(p) && p.stride < p.width && p.width + 15 < UINT32 && p.height == 2 && cx * 2 < p.width
    ensures OneChromaWrite(p, cx)
  {
    FirstChromaWrites(p, cx, 0, cx);
    forall gx, gy | WritesChroma(p, gx, gy, cx) ensures gx == cx && gy == 0 {
      GroupsCover(p.height, gy);
      assert gy == 0;
      FirstChromaWrites(p, gx, gy, cx);
    }
  }

  /** What the destination checks promise the dispatch: its parameters fit 32 bits, and the bound views
      are the planes. */
  lemma CheckedDestinationTiles(source: DmaBuf, destination: DmaBuf, limits: Limits)
    requires ValidDestination(source, destination) && source.width > 0 && source.height > 0
    requires limits.Valid() && Addressable(destination, limits)
    ensures var p := ParametersOf(destination);
      && Dispatchable(p)
      && CheckedPlaneRange(destination.planes[0].offset, p.stride, p.height, destination.totalSize)
           == Some(Rows(p.height, p.stride))
      && CheckedPlaneRange(destination.planes[1].offset, p.stride, p.height / 2, destination.totalSize)
           == Some(2 * Rows(p.height / 2, p.stride / 2))
  {
    var d := destination;
    var stride, height := d.planes[0].stride, d.height;
    hide CheckedPlaneRange, Rows;
    RangeIsRows(d.planes[0].offset, stride, height, d.totalSize);
    RangeIsRows(d.planes[1].offset, stride, height / 2, d.totalSize);
    RowsHalfStride(height / 2, stride);
  }

  lemma RangeIsRows(offset: uint32, stride: uint32, rows: uint32, totalSize: uint64)
    ensures var r := CheckedPlaneRange(offset, stride, rows, totalSize);
      r.Some? ==> r == Some(Rows(rows, stride)) && stride > 0 && rows > 0
  {
    PlaneRangeExact(offset, stride, rows, totalSize);
  }

  lemma RowsHalfStride(rows: nat, stride: nat)
    requires stride % 2 == 0
    ensures Rows(rows, stride) == 2 * Rows(rows, stride / 2)
  {
    assert stride == 2 * (stride / 2);
    assert rows * (2 * (stride / 2)) == 2 * (rows * (stride / 2));
  }

  function ParametersOf(d: DmaBuf): Parameters
    requires |d.planes| == 2
  {
    Parameters(d.width, d.height, d.planes[0].stride)
  }

  /** A destination of two texels a row whose checks all pass and whose rows share a texel. */
  lemma ShortStrideExample()
    ensures var d := DmaBuf(4, 2, FORMAT_NV12, MODIFIER_LINEAR, 100, 0, [Plane(0, 2, 0, 0), Plane(0, 2, 8, 0)]);
      ValidDestination(d, d) && Addressable(d, Limits(1, 100)) && !StoredOnce(ParametersOf(d))
  {
    var d := DmaBuf(4, 2, FORMAT_NV12, MODIFIER_LINEAR, 100, 0, [Plane(0, 2, 0, 0), Plane(0, 2, 8, 0)]);
    PlaneRangeExact(0, 2, 2, 100);
    PlaneRangeExact(8, 2, 1, 100);
    CheckedDestinationTiles(d, d, Limits(1, 100));
    StrideNeeded(ParametersOf(d));
  }

  // ----- bytes of the two planes -----

  /** One byte of the buffer that both a luma and a chroma store write. */
  ghost predicate ShareByte(d: DmaBuf, v: LumaWrite, luma: int, gx: nat, gy: nat, chroma: int, component: nat)
    requires |d.planes| == 2
  {
    && WritesLuma(ParametersOf(d), v, luma) && WritesChroma(ParametersOf(d), gx, gy, chroma) && component < 2
    && d.planes[0].offset + luma == d.planes[1].offset + 2 * chroma + component
  }

  ghost predicate PlanesCollide(d: DmaBuf)
    requires |d.planes| == 2
  {
    exists v, luma, gx, gy, chroma, component :: ShareByte(d, v, luma, gx, gy, chroma, component)
  }

  /** The distance between the planes, in whole rows and a rest, is one that a luma sample and a chroma
      sample can have. */
  predicate Overlap(width: nat, height: nat, stride: nat, distance: int)
    requires stride > 0
  {
    var q, r := distance / stride, distance % stride;
    (r < width && -(height / 2) < q < height) || (stride - r < width && -(height / 2) < q + 1 < height)
  }

  /** Samples `(x, y)` and `(u, v)` of planes that are `distance` bytes apart are the same byte. */
  predicate SameByte(x: nat, y: nat, u: nat, v: nat, stride: nat, distance: int) {
    Rows(y, stride) + x == distance + Rows(v, stride) + u
  }

  lemma FarFrom(k: int, s: int)
    requires s > 0 && k != 0
    ensures k * s >= s || k * s <= 0 - s
  {
    if k > 0 { MulLess(1, k, s); } else { MulLess(1, -k, s); }
  }

  lemma DivisionIs(d: int, s: nat, a: int, b: int)
    requires s > 0 && d == a * s + b && 0 <= b < s
    ensures d / s == a && d % s == b
  {
    var k := a - d / s;
    assert k * s == a * s - d / s * s;
    if k != 0 {
      FarFrom(k, s);
      assert false;
    }
  }

  lemma RowsApart(y: nat, v: nat, s: nat)
    ensures Rows(y, s) - Rows(v, s) == (y - v) * s
  {
  }

  lemma SameByteOverlaps(x: nat, y: nat, u: nat, v: nat, width: nat, height: nat, stride: nat, distance: int)
    requires x < width <= stride && u < width && y < height && v < height / 2 && SameByte(x, y, u, v, stride, distance)
    ensures Overlap(width, height, stride, distance)
  {
    RowsApart(y, v, stride);
    hide Rows;
    var a, b := y - v, x - u;
    assert distance == a * stride + b;
    if b >= 0 {
      DivisionIs(distance, stride, a, b);
    } else {
      assert (a - 1) * stride == a * stride - stride;
      DivisionIs(distance, stride, a - 1, b + stride);
    }
  }

  lemma OverlapHasByte(width: nat, height: nat, stride: nat, distance: int) returns (x: nat, y: nat, u: nat, v: nat)
    requires 0 < width <= stride && height > 0 && height % 2 == 0 && Overlap(width, height, stride, distance)
    ensures x < width && u < width && y < height && v < height / 2 && SameByte(x, y, u, v, stride, distance)
  {
    var q, r := distance / stride, distance % stride;
    assert distance == q * stride + r;
    if r < width && -(height / 2) < q < height {
      x, u := r, 0;
    } else {
      x, u := 0, stride - r;
      q := q + 1;
      assert distance == q * stride - u;
    }
    y, v := if q >= 0 then q else 0, if q >= 0 then 0 else -q;
    RowsApart(y, v, stride);
    hide Rows;
  }

  lemma ChromaByteIs(u: nat, v: nat, stride: nat)
    requires stride % 2 == 0
    ensures 2 * Position(u / 2, v, stride / 2) + u % 2 == Rows(v, stride) + u
  {
    hide Rows;
    RowsHalfStride(v, stride);
  }

  lemma ChromaWriteIs(p: Parameters, gx: nat, gy: nat, index: int)
    requires Dispatchable(p) && p.width <= p.stride
    ensures WritesChroma(p, gx, gy, index)
       <==> gx * 2 < p.width && gy * 2 < p.height && index == Position(gx, gy, p.stride / 2)
  {
    hide Rows, ChromaIndex, Position;
    GridCovers(p, gx, gy);
    if gx * 2 < p.width && gy * 2 < p.height {
      ChromaIndexIs(p, gx, gy);
    }
  }

  lemma CollideOverlaps(d: DmaBuf, v: LumaWrite, luma: int, gx: nat, gy: nat, chroma: int, component: nat)
    requires |d.planes| == 2 && Dispatchable(ParametersOf(d)) && Indexable(ParametersOf(d))
    requires ShareByte(d, v, luma, gx, gy, chroma, component)
    ensures Overlap(d.width, d.height, d.planes[0].stride, d.planes[1].offset - d.planes[0].offset)
  {
    hide Rows, WritesLuma, WritesChroma, Indexable, Overlap;
    var p := ParametersOf(d);
    assert p.width <= p.stride by { StrideOf(p); }
    LumaWriteAt(p, v, luma);
    ChromaWriteIs(p, gx, gy, chroma);
    var u := gx * 2 + component;
    ChromaByteIs(u, gy, p.stride);
    assert u / 2 == gx && u % 2 == component;
    SameByteOverlaps(v.gx * 2 + v.dx, v.gy * 2 + v.dy, u, gy, p.width, p.height, p.stride,
                     d.planes[1].offset - d.planes[0].offset);
  }

  lemma StrideOf(p: Parameters)
    requires Dispatchable(p) && Indexable(p)
    ensures p.width <= p.stride
  {
  }

  lemma OverlapCollides(d: DmaBuf)
    requires |d.planes| == 2 && Dispatchable(ParametersOf(d)) && Indexable(ParametersOf(d))
    requires Overlap(d.width, d.height, d.planes[0].stride, d.planes[1].offset - d.planes[0].offset)
    ensures PlanesCollide(d)
  {
    hide Rows, WritesLuma, WritesChroma, Indexable, Overlap;
    var p := ParametersOf(d);
    StrideOf(p);
    var x, y, u, v := OverlapHasByte(p.width, p.height, p.stride, d.planes[1].offset - d.planes[0].offset);
    LumaTiled(p, x, y);
    ChromaByteIs(u, v, p.stride);
    ChromaWriteIs(p, u / 2, v, Position(u / 2, v, p.stride / 2));
    assert ShareByte(d, LumaWrite(x / 2, y / 2, x % 2, y % 2), Position(x, y, p.stride), u / 2, v,
                     Position(u / 2, v, p.stride / 2), u % 2);
  }

  /** No check keeps the planes apart either. Some luma byte is also a chroma byte exactly when the
      offsets overlap in this sense, which a caller can tell beforehand. */
  lemma PlanesCollideExact(d: DmaBuf)
    requires |d.planes| == 2 && Dispatchable(ParametersOf(d)) && Indexable(ParametersOf(d))
    ensures PlanesCollide(d)
       <==> Overlap(d.width, d.height, d.planes[0].stride, d.planes[1].offset - d.planes[0].offset)
  {
    hide Rows, WritesLuma, WritesChroma, Indexable, Overlap, ShareByte;
    if PlanesCollide(d) {
      var v, luma, gx, gy, chroma, component :| ShareByte(d, v, luma, gx, gy, chroma, component);
      CollideOverlaps(d, v, luma, gx, gy, chroma, component);
    }
    if Overlap(d.width, d.height, d.planes[0].stride, d.planes[1].offset - d.planes[0].offset) {
      OverlapCollides(d);
    }
  }

  /** Two planes at the same offset pass every check. */
  lemma CollidingExample()
    ensures var d := DmaBuf(64, 64, FORMAT_NV12, MODIFIER_LINEAR, 6144, 0, [Plane(0, 64, 0, 0), Plane(0, 64, 0, 0)]);
      ValidDestination(d, d) && Addressable(d, Limits(1, 4096)) && PlanesCollide(d)
  {
    var d := DmaBuf(64, 64, FORMAT_NV12, MODIFIER_LINEAR, 6144, 0, [Plane(0, 64, 0, 0), Plane(0, 64, 0, 0)]);
    PlaneRangeExact(0, 64, 64, 6144);
    PlaneRangeExact(0, 64, 32, 6144);
    CheckedDestinationTiles(d, d, Limits(1, 4096));
    assert Overlap(64, 64, 64, 0) && Indexable(ParametersOf(d));
    PlanesCollideExact(d);
  }

  /** Wherever the planes lie, every byte that is stored lies in the buffer. */
  lemma BytesInside(source: DmaBuf, d: DmaBuf, limits: Limits, v: LumaWrite, luma: int, gx: nat, gy: nat, chroma: int,
                    component: nat)
    requires ValidDestination(source, d) && source.width > 0 && source.height > 0
    requires limits.Valid() && Addressable(d, limits) && component < 2
    requires Dispatchable(ParametersOf(d)) && Indexable(ParametersOf(d))
    requires WritesLuma(ParametersOf(d), v, luma) && WritesChroma(ParametersOf(d), gx, gy, chroma)
    ensures 0 <= d.planes[0].offset + luma < d.totalSize
    ensures 0 <= d.planes[1].offset + 2 * chroma + component < d.totalSize
  {
    hide Rows, WritesLuma, WritesChroma, ChromaIndex, Addressable, CheckedPlaneRange, Indexable;
    var p := ParametersOf(d);
    CheckedDestinationTiles(source, d, limits);
    StrideOf(p);
    LumaOnlyVisible(p, v, luma);
    ChromaWriteIs(p, gx, gy, chroma);
    ChromaIndexIs(p, gx, gy);
    RangeEnds(d.planes[0].offset, p.stride, p.height, d.totalSize);
    RangeEnds(d.planes[1].offset, p.stride, p.height / 2, d.totalSize);
  }

  lemma RangeEnds(offset: uint32, stride: uint32, rows: uint32, totalSize: uint64)
    ensures var r := CheckedPlaneRange(offset, stride, rows, totalSize); r.Some? ==> offset + r.value <= totalSize
  {
  }
}
