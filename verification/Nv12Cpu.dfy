/** The CPU conversion of an RGB picture into the two planes of an NV12 frame. */
module Nv12Cpu {
  import opened Nal
  import opened Nv12

  datatype Pixel = Pixel(r: byte, g: byte, b: byte)

  /** A mapped RGB picture; the planes' row and column increments are behind `pixel`. */
  datatype View = View(width: nat, height: nat, pixel: (nat, nat) -> Pixel)

  function ClampByte(value: int): byte {
    if value < 0 then 0 else if value > 255 then 255 else value
  }

  /** `>> 8` of an `int` rounds down, as division by a positive number does here. */
  function RawLuma(p: Pixel): int {
    (66 * p.r + 129 * p.g + 25 * p.b + 128) / 256 + 16
  }

  function RawU(p: Pixel): int {
    (-38 * p.r - 74 * p.g + 112 * p.b + 128) / 256 + 128
  }

  function RawV(p: Pixel): int {
    (112 * p.r - 94 * p.g - 18 * p.b + 128) / 256 + 128
  }

  /** Clamping never changes a value: luma stays in 16..235 and chroma in 16..240. */
  lemma InVideoRange(p: Pixel)
    ensures 16 <= RawLuma(p) <= 235 && ClampByte(RawLuma(p)) == RawLuma(p)
    ensures 16 <= RawU(p) <= 240 && ClampByte(RawU(p)) == RawU(p)
    ensures 16 <= RawV(p) <= 240 && ClampByte(RawV(p)) == RawV(p)
  {
  }

  // ----- the 2 by 2 blocks -----

  function PixelOf(view: View, x: nat, y: nat, n: nat): Pixel {
    view.pixel(x + n % 2, y + n / 2)
  }

  /** The positions of the first `n` pixels of a block. */
  function FirstOf(x: nat, y: nat, n: nat): set<(nat, nat)> {
    (if n > 0 then {(x, y)} else {}) + (if n > 1 then {(x + 1, y)} else {})
    + (if n > 2 then {(x, y + 1)} else {}) + if n > 3 then {(x + 1, y + 1)} else {}
  }

  lemma PixelAt(view: View, x: nat, y: nat, dx: nat, dy: nat)
    requires dx < 2 && dy < 2
    ensures PixelOf(view, x, y, 2 * dy + dx) == view.pixel(x + dx, y + dy)
  {
  }

  /** The component-wise sum of the first `n` pixels of the block at `(x, y)`. */
  function Sum(view: View, x: nat, y: nat, n: nat): (int, int, int) {
    if n == 0 then (0, 0, 0)
    else
      var (r, g, b) := Sum(view, x, y, n - 1);
      var p := PixelOf(view, x, y, n - 1);
      (r + p.r, g + p.g, b + p.b)
  }

  lemma {:induction false} SumBounds(view: View, x: nat, y: nat, n: nat)
    ensures var (r, g, b) := Sum(view, x, y, n);
      0 <= r <= 255 * n && 0 <= g <= 255 * n && 0 <= b <= 255 * n
  {
    if n != 0 {
      SumBounds(view, x, y, n - 1);
    }
  }

  /** The first of the two columns, or rows, of a block. */
  function BlockStart(n: nat): nat {
    n / 2 * 2
  }

  /** The mean pixel of a block. */
  function Mean(view: View, x: nat, y: nat): Pixel {
    SumBounds(view, x, y, 4);
    var (r, g, b) := Sum(view, x, y, 4);
    Pixel(r / 4, g / 4, b / 4)
  }

  // ----- the positions read -----

  /** Reads a pixel of the view, wherever it lies, and notes its position. */
  method ReadPixel(view: View, x: nat, y: nat, ghost before: set<(nat, nat)>)
    returns (p: Pixel, ghost seen: set<(nat, nat)>)
    ensures p == view.pixel(x, y) && seen == before + {(x, y)}
  {
    p := view.pixel(x, y);
    seen := before + {(x, y)};
  }

  function Block(x: nat, y: nat): set<(nat, nat)> {
    {(x, y), (x + 1, y), (x, y + 1), (x + 1, y + 1)}
  }

  /** All columns of the rows above `y`, and those before `x` of the `n` rows from there. */
  ghost predicate ReadUpTo(seen: set<(nat, nat)>, columns: nat, x: nat, y: nat, n: nat) {
    forall q :: q in seen <==> (q.0 < columns && q.1 < y) || (q.0 < x && y <= q.1 < y + n)
  }

  lemma ReadOne(seen: set<(nat, nat)>, columns: nat, x: nat, y: nat)
    requires ReadUpTo(seen, columns, x, y, 1) && x < columns
    ensures ReadUpTo(seen + {(x, y)}, columns, x + 1, y, 1)
  {
  }

  lemma ReadBlock(seen: set<(nat, nat)>, columns: nat, x: nat, y: nat)
    requires ReadUpTo(seen, columns, x, y, 2) && x + 1 < columns
    ensures ReadUpTo(seen + Block(x, y), columns, x + 2, y, 2)
  {
  }

  lemma ReadRows(seen: set<(nat, nat)>, columns: nat, y: nat, n: nat)
    requires ReadUpTo(seen, columns, columns, y, n)
    ensures ReadUpTo(seen, columns, 0, y + n, n)
  {
  }

  lemma ReadNothing(columns: nat, n: nat)
    ensures ReadUpTo({}, columns, 0, 0, n)
  {
  }

  /** Everything read by both loops. */
  lemma ReadBoth(luma: set<(nat, nat)>, chroma: set<(nat, nat)>, width: nat, height: nat)
    requires ReadUpTo(luma, width, 0, height, 1)
    requires ReadUpTo(chroma, 2 * Blocks(width), 0, 2 * Blocks(height), 2)
    ensures ReadUpTo(luma + chroma, 2 * Blocks(width), 0, 2 * Blocks(height), 2)
  {
  }

  ghost predicate InView(view: View, seen: set<(nat, nat)>) {
    forall q :: q in seen ==> q.0 < view.width && q.1 < view.height
  }

  /** The size check of the conversion compares the sizes as they are. What is read stays inside the
      view exactly when the sizes fit after they are rounded up to even ones. */
  lemma ReadsInsideExact(view: View, width: nat, height: nat, seen: set<(nat, nat)>)
    requires ReadUpTo(seen, 2 * Blocks(width), 0, 2 * Blocks(height), 2)
    ensures InView(view, seen) <==>
      width == 0 || height == 0 || (2 * Blocks(width) <= view.width && 2 * Blocks(height) <= view.height)
  {
    if width > 0 && height > 0 {
      assert (2 * Blocks(width) - 1, 2 * Blocks(height) - 1) in seen;
    }
  }

  // ----- the sizes that can be set -----

  datatype Size = Size(width: nat, height: nat)

  const DEFAULT_SIZE := Size(1280, 720)
  const MINIMUM_SIZE := Size(256, 128)

  /** A field value of the range `least..most` with step 2. */
  predicate Supported(value: nat, least: nat, most: nat) {
    least <= value <= most && (value - least) % 2 == 0
  }

  /** The setter puts the old value back for a side that is not supported. */
  function SetSize(before: Size, requested: Size, most: Size): Size {
    Size(if Supported(requested.width, MINIMUM_SIZE.width, most.width) then requested.width else before.width,
         if Supported(requested.height, MINIMUM_SIZE.height, most.height) then requested.height else before.height)
  }

  function SizeAfter(requests: seq<Size>, most: Size): Size {
    if requests == [] then DEFAULT_SIZE
    else SetSize(SizeAfter(requests[..|requests| - 1], most), requests[|requests| - 1], most)
  }

  lemma {:induction false} SettableIsEven(requests: seq<Size>, most: Size)
    ensures var size := SizeAfter(requests, most);
      size.width > 0 && size.height > 0 && size.width % 2 == 0 && size.height % 2 == 0
  {
    if requests != [] {
      SettableIsEven(requests[..|requests| - 1], most);
    }
  }

  /** Whatever sizes were asked for, a conversion that passes the size check reads inside the view. */
  lemma SettableReadsInside(requests: seq<Size>, most: Size, view: View, seen: set<(nat, nat)>)
    requires var size := SizeAfter(requests, most);
      && size.width <= view.width && size.height <= view.height
      && ReadUpTo(seen, 2 * Blocks(size.width), 0, 2 * Blocks(size.height), 2)
    ensures InView(view, seen)
  {
    SettableIsEven(requests, most);
  }

  /** A 3 by 3 frame in a view of its own size would be read outside, but cannot be set. */
  lemma {:induction false} OddSizeExample(view: View, seen: set<(nat, nat)>, requests: seq<Size>, most: Size)
    requires view.width == view.height == 3
    requires ReadUpTo(seen, 2 * Blocks(3), 0, 2 * Blocks(3), 2)
    ensures (3, 0) in seen && !InView(view, seen)
    ensures SizeAfter(requests, most) != Size(3, 3)
  {
    ReadsInsideExact(view, 3, 3, seen);
    SettableIsEven(requests, most);
  }

  method AverageBlock(view: View, x: nat, y: nat, ghost before: set<(nat, nat)>)
    returns (mean: Pixel, ghost seen: set<(nat, nat)>)
    ensures mean == Mean(view, x, y)
    ensures seen == before + Block(x, y)
  {
    hide PixelOf;
    var r, g, b := 0, 0, 0;
    seen := before;
    for dy := 0 to 2
      invariant (r, g, b) == Sum(view, x, y, 2 * dy)
      invariant seen == before + FirstOf(x, y, 2 * dy)
    {
      for dx := 0 to 2
        invariant (r, g, b) == Sum(view, x, y, 2 * dy + dx)
        invariant seen == before + FirstOf(x, y, 2 * dy + dx)
      {
        var p;
        p, seen := ReadPixel(view, x + dx, y + dy, seen);
        PixelAt(view, x, y, dx, dy);
        r, g, b := r + p.r, g + p.g, b + p.b;
      }
    }
    SumBounds(view, x, y, 4);
    mean := Pixel(r / 4, g / 4, b / 4);
  }

  // ----- planes -----

  /** What a plane must hold at a position, as rows of samples. */
  datatype Samples = Samples(columns: nat, rows: nat, stride: nat, sample: (nat, nat) -> byte) {
    predicate Fits(length: nat) {
      columns <= stride && Rows(rows, stride) <= length
    }
  }

  function LumaPlane(view: View, width: nat, height: nat, stride: nat): Samples {
    Samples(width, height, stride, (x: nat, y: nat) => ClampByte(RawLuma(view.pixel(x, y))))
  }

  function ChromaSample(view: View, x: nat, y: nat): byte {
    var mean := Mean(view, BlockStart(x), y * 2);
    ClampByte(if x % 2 == 0 then RawU(mean) else RawV(mean))
  }

  /** The number of whole 2 by 2 blocks that cover `n` pixels. */
  function Blocks(n: nat): nat {
    (n + 1) / 2
  }

  /** U and V alternate along a row; each pair is the mean of a block. An odd size is rounded up. */
  function ChromaPlane(view: View, width: nat, height: nat, stride: nat): Samples {
    Samples(2 * Blocks(width), Blocks(height), stride, (x: nat, y: nat) => ChromaSample(view, x, y))
  }

  predicate Before(x: nat, y: nat, nextX: nat, nextY: nat) {
    y < nextY || (y == nextY && x < nextX)
  }

  ghost predicate Visible(p: Samples, k: int) {
    exists x: nat, y: nat :: x < p.columns && y < p.rows && Position(x, y, p.stride) == k
  }

  /** Every sample before `(nextX, nextY)` is filled, and nothing but samples was changed. */
  ghost predicate Filled(p: Samples, before: seq<byte>, after: seq<byte>, nextX: nat, nextY: nat) {
    && |after| == |before| && p.Fits(|after|)
    && (forall x: nat, y: nat ::
          x < p.columns && y < p.rows && Before(x, y, nextX, nextY) ==> SampleIs(p, after, x, y))
    && forall k :: 0 <= k < |after| && after[k] != before[k] ==> Visible(p, k)
  }

  predicate SampleIs(p: Samples, plane: seq<byte>, x: nat, y: nat) {
    var k := Position(x, y, p.stride);
    k < |plane| && plane[k] == p.sample(x, y)
  }

  lemma FilledNothing(p: Samples, s: seq<byte>)
    requires p.Fits(|s|)
    ensures Filled(p, s, s, 0, 0)
  {
  }

  lemma PositionInside(p: Samples, x: nat, y: nat)
    requires p.columns <= p.stride && x < p.columns && y < p.rows
    ensures Position(x, y, p.stride) < Rows(p.rows, p.stride)
  {
    hide Rows;
    RowsOrdered(y, p.rows, p.stride);
  }

  /** Storing the next sample leaves the earlier ones alone. */
  lemma FillOne(p: Samples, before: seq<byte>, after: seq<byte>, x: nat, y: nat)
    requires Filled(p, before, after, x, y) && x < p.columns && y < p.rows
    ensures var k := Position(x, y, p.stride);
      k < |after| && Filled(p, before, after[k := p.sample(x, y)], x + 1, y)
  {
    hide Rows, Position, Visible;
    PositionInside(p, x, y);
    var k := Position(x, y, p.stride);
    var stored := after[k := p.sample(x, y)];
    forall u: nat, v: nat
      | u < p.columns && v < p.rows && Before(u, v, x + 1, y)
      ensures SampleIs(p, stored, u, v)
    {
      if u == x && v == y {
      } else {
        assert SampleIs(p, after, u, v);
        if Position(u, v, p.stride) == k {
          PositionsDistinct(u, v, x, y, p.stride);
        }
      }
    }
    VisibleAt(p, x, y);
  }

  lemma VisibleAt(p: Samples, x: nat, y: nat)
    requires x < p.columns && y < p.rows
    ensures Visible(p, Position(x, y, p.stride))
  {
  }

  lemma FillRow(p: Samples, before: seq<byte>, after: seq<byte>, y: nat)
    requires Filled(p, before, after, p.columns, y)
    ensures Filled(p, before, after, 0, y + 1)
  {
    forall u: nat, v: nat
      | u < p.columns && v < p.rows && Before(u, v, 0, y + 1)
      ensures SampleIs(p, after, u, v)
    {
      assert Before(u, v, p.columns, y);
    }
  }

  /** After the conversion every sample of both planes holds its value, unclamped and in range. */
  lemma ConvertedInRange(view: View, width: nat, height: nat, lumaStride: nat, chromaStride: nat,
                         luma: seq<byte>, luma': seq<byte>, chroma: seq<byte>, chroma': seq<byte>, x: nat, y: nat)
    requires Filled(LumaPlane(view, width, height, lumaStride), luma, luma', 0, height)
    requires Filled(ChromaPlane(view, width, height, chromaStride), chroma, chroma', 0, Blocks(height))
    requires x < width && y < height
    ensures var k := Position(x, y, lumaStride);
      k < |luma'| && luma'[k] == RawLuma(view.pixel(x, y)) && 16 <= luma'[k] <= 235
    ensures var k := Position(x, y / 2, chromaStride);
      && k < |chroma'| && 16 <= chroma'[k] <= 240
      && chroma'[k] == var mean := Mean(view, BlockStart(x), BlockStart(y)); if x % 2 == 0 then RawU(mean) else RawV(mean)
  {
    hide Position, Rows, RawLuma, RawU, RawV, ClampByte, Mean;
    InVideoRange(view.pixel(x, y));
    assert SampleIs(LumaPlane(view, width, height, lumaStride), luma', x, y);
    assert SampleIs(ChromaPlane(view, width, height, chromaStride), chroma', x, y / 2);
    InVideoRange(Mean(view, BlockStart(x), BlockStart(y)));
  }

  /** Converts the picture, refusing a view that is smaller than the frame. */
  method CopyRgbToNv12(view: View, width: nat, height: nat, luma: array<byte>, lumaStride: nat,
                       chroma: array<byte>, chromaStride: nat)
    returns (ok: bool, ghost seen: set<(nat, nat)>)
    requires luma != chroma
    requires LumaPlane(view, width, height, lumaStride).Fits(luma.Length)
    requires ChromaPlane(view, width, height, chromaStride).Fits(chroma.Length)
    modifies luma, chroma
    ensures ok <==> width <= view.width && height <= view.height
    ensures !ok ==> luma[..] == old(luma[..]) && chroma[..] == old(chroma[..]) && seen == {}
    ensures ok ==> ReadUpTo(seen, 2 * Blocks(width), 0, 2 * Blocks(height), 2)
    ensures ok ==>
      && Filled(LumaPlane(view, width, height, lumaStride), old(luma[..]), luma[..], 0, height)
      && Filled(ChromaPlane(view, width, height, chromaStride), old(chroma[..]), chroma[..], 0, Blocks(height))
  {
    hide Filled, ReadUpTo;
    if view.width < width || view.height < height { return false, {}; }
    ghost var lumaSeen := CopyLuma(view, width, height, luma, lumaStride);
    ghost var chromaSeen := CopyChroma(view, width, height, chroma, chromaStride);
    ReadBoth(lumaSeen, chromaSeen, width, height);
    ok, seen := true, lumaSeen + chromaSeen;
  }

  method CopyLuma(view: View, width: nat, height: nat, luma: array<byte>, stride: nat)
    returns (ghost seen: set<(nat, nat)>)
    requires LumaPlane(view, width, height, stride).Fits(luma.Length)
    modifies luma
    ensures Filled(LumaPlane(view, width, height, stride), old(luma[..]), luma[..], 0, height)
    ensures ReadUpTo(seen, width, 0, height, 1)
  {
    hide Filled, Rows, Position, ReadUpTo;
    ghost var p, before := LumaPlane(view, width, height, stride), luma[..];
    FilledNothing(p, before);
    seen := {};
    ReadNothing(width, 1);
    for y := 0 to height
      invariant Filled(p, before, luma[..], 0, y) && ReadUpTo(seen, width, 0, y, 1)
    {
      for x := 0 to width
        invariant Filled(p, before, luma[..], x, y) && ReadUpTo(seen, width, x, y, 1)
      {
        FillOne(p, before, luma[..], x, y);
        ReadOne(seen, width, x, y);
        ghost var was := luma[..];
        var pixel;
        pixel, seen := ReadPixel(view, x, y, seen);
        var k := Position(x, y, stride);
        var value := ClampByte(RawLuma(pixel));
        luma[k] := value;
        assert luma[..] == was[k := value];
      }
      FillRow(p, before, luma[..], y);
      ReadRows(seen, width, y, 1);
    }
  }

  method CopyChroma(view: View, width: nat, height: nat, chroma: array<byte>, stride: nat)
    returns (ghost seen: set<(nat, nat)>)
    requires ChromaPlane(view, width, height, stride).Fits(chroma.Length)
    modifies chroma
    ensures Filled(ChromaPlane(view, width, height, stride), old(chroma[..]), chroma[..], 0, Blocks(height))
    ensures ReadUpTo(seen, 2 * Blocks(width), 0, 2 * Blocks(height), 2)
  {
    hide Filled, Rows, Position, ChromaSample, ReadUpTo;
    ghost var p, before := ChromaPlane(view, width, height, stride), chroma[..];
    FilledNothing(p, before);
    seen := {};
    ReadNothing(2 * Blocks(width), 2);
    var y := 0;
    while y < height
      invariant y % 2 == 0 && y <= height + 1 && Filled(p, before, chroma[..], 0, y / 2)
      invariant ReadUpTo(seen, 2 * Blocks(width), 0, y, 2)
    {
      var x := 0;
      while x < width
        invariant x % 2 == 0 && x <= width + 1 && Filled(p, before, chroma[..], x, y / 2)
        invariant ReadUpTo(seen, 2 * Blocks(width), x, y, 2)
      {
        ReadBlock(seen, 2 * Blocks(width), x, y);
        seen := StorePair(view, width, height, before, chroma, stride, x, y, seen);
        x := x + 2;
      }
      FillRow(p, before, chroma[..], y / 2);
      ReadRows(seen, 2 * Blocks(width), y, 2);
      y := y + 2;
    }
  }

  lemma ChromaPair(view: View, x: nat, y: nat)
    requires x % 2 == 0 && y % 2 == 0
    ensures ChromaSample(view, x, y / 2) == ClampByte(RawU(Mean(view, x, y)))
    ensures ChromaSample(view, x + 1, y / 2) == ClampByte(RawV(Mean(view, x, y)))
  {
    hide Mean, RawU, RawV, ClampByte;
    assert x / 2 * 2 == x && (x + 1) / 2 * 2 == x && y / 2 * 2 == y;
  }

  /** The two chroma samples of one block. */
  method StorePair(view: View, ghost width: nat, ghost height: nat, ghost before: seq<byte>, chroma: array<byte>,
                   stride: nat, x: nat, y: nat, ghost readBefore: set<(nat, nat)>)
    returns (ghost seen: set<(nat, nat)>)
    requires x % 2 == 0 && y % 2 == 0 && x < width && y < height
    requires Filled(ChromaPlane(view, width, height, stride), before, chroma[..], x, y / 2)
    modifies chroma
    ensures Filled(ChromaPlane(view, width, height, stride), before, chroma[..], x + 2, y / 2)
    ensures seen == readBefore + Block(x, y)
  {
    hide Filled, Rows, Position, ChromaSample, Mean, RawU, RawV;
    ghost var p := ChromaPlane(view, width, height, stride);
    ChromaPair(view, x, y);
    var mean;
    mean, seen := AverageBlock(view, x, y, readBefore);
    StoreChroma(p, before, chroma, stride, x, y / 2, ClampByte(RawU(mean)));
    StoreChroma(p, before, chroma, stride, x + 1, y / 2, ClampByte(RawV(mean)));
  }

  method StoreChroma(ghost p: Samples, ghost before: seq<byte>, chroma: array<byte>, stride: nat, x: nat, y: nat,
                     value: byte)
    requires Filled(p, before, chroma[..], x, y) && x < p.columns && y < p.rows && p.stride == stride
    requires value == p.sample(x, y)
    modifies chroma
    ensures Filled(p, before, chroma[..], x + 1, y)
  {
    hide Filled, Rows, Position;
    FillOne(p, before, chroma[..], x, y);
    ghost var was := chroma[..];
    var k := Position(x, y, stride);
    chroma[k] := value;
    assert chroma[..] == was[k := value];
  }
}
