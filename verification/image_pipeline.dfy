/** The integer image pipeline of the person detector: the index and clamp
    discipline of the bilinear resize, the RGB to signed grey quantisation and
    the person/no-person threshold.

    Blend weights and source coordinates are computed here in exact rational
    arithmetic (`real`) where the firmware uses `float`/`double`; every bound
    on the indices read is proved for an arbitrary truncated coordinate, so it
    does not depend on how the coordinate was rounded. */
module ImagePipeline {
  import opened Common

  // ---------------------------------------------------------------------
  // Configuration constants
  // ---------------------------------------------------------------------

  /** Camera frame size decoded into the full-resolution RGB888 buffer. */
  const FullWidth: int := 320
  const FullHeight: int := 240
  /** Model input geometry: 96 x 96 pixels, one grey channel. */
  const NumRows: int := 96
  const NumCols: int := 96
  const NumChannels: int := 1
  /** Channels of the RGB888 buffers. */
  const RgbChannels: int := 3
  /** A person score strictly above this value is reported as a person. */
  const PersonThreshold: int := 50

  // ---------------------------------------------------------------------
  // Interleaved buffer layout
  // ---------------------------------------------------------------------

  /** Bytes of an interleaved image of `w` x `h` pixels with `c` channels. */
  function BufferSize(w: int, h: int, c: int): int {
    w * h * c
  }

  /** Offset of channel `ch` of pixel (`row`, `col`) in an interleaved image
      of `width` pixels per row and `c` channels: `row * stride + col * c + ch`
      with `stride = c * width`. */
  function FlatIndex(row: int, col: int, ch: int, width: int, c: int): int {
    row * (c * width) + col * c + ch
  }

  lemma MulMonotone(a: int, b: int, k: int)
    requires 0 <= a <= b && 0 <= k
    ensures 0 <= a * k <= b * k
  {
  }

  /** Every pixel of the `width` x `height` box lies inside the buffer. */
  lemma FlatIndexInBuffer(row: int, col: int, ch: int, width: int, height: int, c: int)
    requires 0 <= row < height && 0 <= col < width && 0 <= ch < c
    ensures 0 <= FlatIndex(row, col, ch, width, c) < BufferSize(width, height, c)
  {
    MulMonotone(col, width - 1, c);
    assert col * c + ch < c * width;
    MulMonotone(row, height - 1, c * width);
    assert row * (c * width) + c * width <= height * (c * width);
  }

  // ---------------------------------------------------------------------
  // Bilinear resize: coordinates, clamps and taps
  // ---------------------------------------------------------------------

  /** The C conversion `(int)v`: truncation toward zero. */
  function Trunc(v: real): (r: int)
    ensures v >= 0.0 ==> r as real <= v < r as real + 1.0
    ensures v < 0.0 ==> r as real - 1.0 < v <= r as real
  {
    if v >= 0.0 then v.Floor else -((-v).Floor)
  }

  /** C `round`: to the nearest integer, halves away from zero. */
  function Round(v: real): (r: int)
    ensures v >= 0.0 ==> r as real - 0.5 <= v < r as real + 0.5
    ensures v < 0.0 ==> r as real - 0.5 < v <= r as real + 0.5
  {
    if v >= 0.0 then (v + 0.5).Floor else -((-v + 0.5).Floor)
  }

  /** Fractional source coordinate `(out + 0.5) * (src / dst) - 0.5` of
      output coordinate `out`. */
  function SourceCoord(out: int, srcDim: int, dstDim: int): real
    requires dstDim > 0
  {
    (out as real + 0.5) * (srcDim as real / dstDim as real) - 0.5
  }

  /** One axis of a bilinear sample: the first source index read, and the
      weight `frac` of the neighbour at `index + 1` (the first index gets
      `1 - frac`). */
  datatype Tap = Tap(index: int, frac: real)

  /** Column clamp of the resize: a truncated coordinate below 0 or above
      `srcW - 2` is moved to that edge AND its fractional weight is zeroed,
      so only column `index` contributes. */
  function ClampColumn(raw: int, frac: real, srcW: int): (t: Tap)
    requires srcW >= 2
    ensures 0 <= t.index <= srcW - 2
    ensures 0 <= raw <= srcW - 2 ==> t == Tap(raw, frac)
    ensures raw < 0 ==> t == Tap(0, 0.0)
    ensures raw > srcW - 2 ==> t == Tap(srcW - 2, 0.0)
  {
    var low := if raw < 0 then Tap(0, 0.0) else Tap(raw, frac);
    if low.index > srcW - 2 then Tap(srcW - 2, 0.0) else low
  }

  /** Row clamp of the resize: the truncated coordinate is clamped with
      max/min to `[0, srcH - 2]`, but the fractional weight computed before
      the clamp is kept unchanged. */
  function ClampRow(raw: int, frac: real, srcH: int): (t: Tap)
    requires srcH >= 2
    ensures 0 <= t.index <= srcH - 2
    ensures t.frac == frac
    ensures 0 <= raw <= srcH - 2 ==> t.index == raw
    ensures raw < 0 ==> t.index == 0
    ensures raw > srcH - 2 ==> t.index == srcH - 2
  {
    var low := if 0 < raw then raw else 0;
    Tap(if low < srcH - 2 then low else srcH - 2, frac)
  }

  /** Horizontal tap of output column `x`. */
  function ColumnTap(x: int, srcW: int, dstW: int): (t: Tap)
    requires srcW >= 2 && dstW >= 1
    ensures 0 <= t.index && t.index + 1 < srcW
  {
    var coord := SourceCoord(x, srcW, dstW);
    var raw := Trunc(coord);
    ClampColumn(raw, coord - raw as real, srcW)
  }

  /** Vertical tap of output row `y`. */
  function RowTap(y: int, srcH: int, dstH: int): (t: Tap)
    requires srcH >= 2 && dstH >= 1
    ensures 0 <= t.index && t.index + 1 < srcH
  {
    var coord := SourceCoord(y, srcH, dstH);
    var raw := Trunc(coord);
    ClampRow(raw, coord - raw as real, srcH)
  }

  /** Well-formed resize geometry: a non-empty destination, a source at least
      two pixels wide and high (the clamp bound `dim - 2` needs that), and a
      source buffer of exactly `srcW * srcH * c` bytes. */
  predicate ResizeGeometry(src: seq<int>, dstW: int, dstH: int, c: int, srcW: int, srcH: int) {
    && dstW >= 1 && dstH >= 1 && c >= 1
    && srcW >= 2 && srcH >= 2
    && |src| == BufferSize(srcW, srcH, c)
  }

  /** The four source offsets read for channel `ch` of output pixel (`y`, `x`),
      in the order of the blend: (row, col), (row, col + 1), (row + 1, col),
      (row + 1, col + 1). */
  function ReadOffsets(y: int, x: int, ch: int, dstW: int, dstH: int, c: int, srcW: int, srcH: int): seq<int>
    requires dstW >= 1 && dstH >= 1 && srcW >= 2 && srcH >= 2
  {
    var row := RowTap(y, srcH, dstH).index;
    var col := ColumnTap(x, srcW, dstW).index;
    [FlatIndex(row, col, ch, srcW, c), FlatIndex(row, col + 1, ch, srcW, c),
     FlatIndex(row + 1, col, ch, srcW, c), FlatIndex(row + 1, col + 1, ch, srcW, c)]
  }

  /** All four reads of every output sample index inside the source buffer,
      for any destination size, whatever the truncated coordinate was. */
  lemma ReadsInBounds(src: seq<int>, y: int, x: int, ch: int, dstW: int, dstH: int, c: int, srcW: int, srcH: int)
    requires ResizeGeometry(src, dstW, dstH, c, srcW, srcH)
    requires 0 <= ch < c
    ensures forall k :: 0 <= k < 4 ==> 0 <= ReadOffsets(y, x, ch, dstW, dstH, c, srcW, srcH)[k] < |src|
  {
    var row := RowTap(y, srcH, dstH).index;
    var col := ColumnTap(x, srcW, dstW).index;
    FlatIndexInBuffer(row, col, ch, srcW, srcH, c);
    FlatIndexInBuffer(row, col + 1, ch, srcW, srcH, c);
    FlatIndexInBuffer(row + 1, col, ch, srcW, srcH, c);
    FlatIndexInBuffer(row + 1, col + 1, ch, srcW, srcH, c);
  }

  /** The bilinear blend of four samples with horizontal weight `fx` and
      vertical weight `fy`, before rounding. */
  function Blend(p00: int, p01: int, p10: int, p11: int, fx: real, fy: real): real {
    p00 as real * (1.0 - fx) * (1.0 - fy) + p01 as real * fx * (1.0 - fy)
      + p10 as real * (1.0 - fx) * fy + p11 as real * fx * fy
  }

  /** The value written for channel `ch` of output pixel (`y`, `x`). */
  function OutputSample(src: seq<int>, y: int, x: int, ch: int, dstW: int, dstH: int, c: int, srcW: int, srcH: int): int
    requires ResizeGeometry(src, dstW, dstH, c, srcW, srcH)
    requires 0 <= ch < c
  {
    var rt := RowTap(y, srcH, dstH);
    var ct := ColumnTap(x, srcW, dstW);
    var offs := ReadOffsets(y, x, ch, dstW, dstH, c, srcW, srcH);
    ReadsInBounds(src, y, x, ch, dstW, dstH, c, srcW, srcH);
    Round(Blend(src[offs[0]], src[offs[1]], src[offs[2]], src[offs[3]], ct.frac, rt.frac))
  }

  /** Offsets advance by one per channel, by a pixel per column and by a
      stride per row, so the loop nest visits them consecutively. */
  lemma FlatIndexSteps(y: int, x: int, width: int, c: int)
    ensures FlatIndex(y, x, c, width, c) == FlatIndex(y, x + 1, 0, width, c)
    ensures FlatIndex(y, width, 0, width, c) == FlatIndex(y + 1, 0, 0, width, c)
    ensures FlatIndex(0, 0, 0, width, c) == 0
  {
  }

  /** The offset one past the last row is the buffer size. */
  lemma FlatIndexEnd(width: int, height: int, c: int)
    ensures FlatIndex(height, 0, 0, width, c) == BufferSize(width, height, c)
  {
  }

  lemma DivModUnique(n: int, d: int, q: int, r: int)
    requires 0 < d && 0 <= r < d && n == q * d + r
    ensures n / d == q && n % d == r
  {
    var q0, r0 := n / d, n % d;
    assert (q - q0) * d == r0 - r;
    if q0 < q {
      MulMonotone(1, q - q0, d);
      assert false;
    } else if q < q0 {
      MulMonotone(1, q0 - q, d);
      assert false;
    }
  }

  /** A pixel channel of an interleaved image. */
  datatype Cell = Cell(y: int, x: int, ch: int)

  /** The cell stored at offset `k` of an interleaved image. */
  function CellAt(k: int, width: int, c: int): Cell
    requires width >= 1 && c >= 1
  {
    Cell((k / c) / width, (k / c) % width, k % c)
  }

  lemma CellAtNonNegative(k: int, width: int, c: int)
    requires 0 <= k && width >= 1 && c >= 1
    ensures 0 <= CellAt(k, width, c).y && 0 <= CellAt(k, width, c).x < width && 0 <= CellAt(k, width, c).ch < c
  {
  }

  /** Offsets and cells of the box are in one-to-one correspondence. */
  lemma CellAtFlatIndex(y: int, x: int, ch: int, width: int, c: int)
    requires 0 <= x < width && 0 <= ch < c
    ensures CellAt(FlatIndex(y, x, ch, width, c), width, c) == Cell(y, x, ch)
  {
    var k := FlatIndex(y, x, ch, width, c);
    assert k == (y * width + x) * c + ch;
    DivModUnique(k, c, y * width + x, ch);
    DivModUnique(y * width + x, width, y, x);
  }

  /** The loop nest of the resize, rows outermost and channels innermost,
      storing `sample(y, x, ch)` at offset `y * stride + x * c + ch`. `dst0`
      is the previous content of the destination buffer; `writes` records,
      in order, the offset every store goes to. The k-th store goes to offset
      k, so every cell is written exactly once and no store leaves the
      buffer. */
  method FillRaster(dst0: seq<int>, w: int, h: int, c: int, sample: (int, int, int) -> int)
      returns (dst: seq<int>, writes: seq<int>)
    requires w >= 1 && h >= 1 && c >= 1
    requires |dst0| == BufferSize(w, h, c)
    ensures |dst| == |dst0| && |writes| == |dst0|
    ensures forall k :: 0 <= k < |writes| ==> writes[k] == k
    ensures forall y, x, ch :: 0 <= y < h && 0 <= x < w && 0 <= ch < c ==>
      0 <= FlatIndex(y, x, ch, w, c) < |dst| && dst[FlatIndex(y, x, ch, w, c)] == sample(y, x, ch)
    ensures forall k :: 0 <= k < |dst| ==> dst[k] == sample(CellAt(k, w, c).y, CellAt(k, w, c).x, CellAt(k, w, c).ch)
  {
    dst := dst0;
    writes := [];
    FlatIndexSteps(0, 0, w, c);
    var y := 0;
    while y < h
      invariant 0 <= y <= h
      invariant |dst| == |dst0|
      invariant |writes| == FlatIndex(y, 0, 0, w, c) <= |dst0|
      invariant forall k :: 0 <= k < |writes| ==> writes[k] == k
      invariant forall k :: 0 <= k < |writes| ==> dst[k] == sample(CellAt(k, w, c).y, CellAt(k, w, c).x, CellAt(k, w, c).ch)
    {
      var x := 0;
      while x < w
        invariant 0 <= x <= w
        invariant |dst| == |dst0|
        invariant |writes| == FlatIndex(y, x, 0, w, c) <= |dst0|
        invariant forall k :: 0 <= k < |writes| ==> writes[k] == k
        invariant forall k :: 0 <= k < |writes| ==> dst[k] == sample(CellAt(k, w, c).y, CellAt(k, w, c).x, CellAt(k, w, c).ch)
      {
        var ch := 0;
        while ch < c
          invariant 0 <= ch <= c
          invariant |dst| == |dst0|
          invariant |writes| == FlatIndex(y, x, ch, w, c) <= |dst0|
          invariant forall k :: 0 <= k < |writes| ==> writes[k] == k
          invariant forall k :: 0 <= k < |writes| ==> dst[k] == sample(CellAt(k, w, c).y, CellAt(k, w, c).x, CellAt(k, w, c).ch)
        {
          var idx := FlatIndex(y, x, ch, w, c);
          FlatIndexInBuffer(y, x, ch, w, h, c);
          CellAtFlatIndex(y, x, ch, w, c);
          dst := dst[idx := sample(y, x, ch)];
          writes := writes + [idx];
          ch := ch + 1;
        }
        FlatIndexSteps(y, x, w, c);
        x := x + 1;
      }
      FlatIndexSteps(y, x, w, c);
      y := y + 1;
    }
    FlatIndexEnd(w, h, c);
    forall y, x, ch | 0 <= y < h && 0 <= x < w && 0 <= ch < c
      ensures 0 <= FlatIndex(y, x, ch, w, c) < |dst| && dst[FlatIndex(y, x, ch, w, c)] == sample(y, x, ch)
    {
      FlatIndexInBuffer(y, x, ch, w, h, c);
      CellAtFlatIndex(y, x, ch, w, c);
    }
  }

  /** `image_resize_linear`: the loop nest storing, in every cell of the
      destination, the rounded blend of its four clamped source samples. */
  method ResizeLinear(src: seq<int>, dst0: seq<int>, dstW: int, dstH: int, c: int, srcW: int, srcH: int)
      returns (dst: seq<int>, writes: seq<int>)
    requires ResizeGeometry(src, dstW, dstH, c, srcW, srcH)
    requires |dst0| == BufferSize(dstW, dstH, c)
    ensures |dst| == |dst0| && |writes| == |dst0|
    ensures forall k :: 0 <= k < |writes| ==> writes[k] == k
    ensures forall y, x, ch :: 0 <= y < dstH && 0 <= x < dstW && 0 <= ch < c ==>
      0 <= FlatIndex(y, x, ch, dstW, c) < |dst| && dst[FlatIndex(y, x, ch, dstW, c)] == OutputSample(src, y, x, ch, dstW, dstH, c, srcW, srcH)
    ensures dstW <= srcW && dstH <= srcH && AllBytes(src) ==> AllBytes(dst)
  {
    var sample := (y: int, x: int, ch: int) =>
      if 0 <= ch < c then OutputSample(src, y, x, ch, dstW, dstH, c, srcW, srcH) else 0;
    dst, writes := FillRaster(dst0, dstW, dstH, c, sample);
    if dstW <= srcW && dstH <= srcH && AllBytes(src) {
      forall k | 0 <= k < |dst|
        ensures IsByte(dst[k])
      {
        var cell := CellAt(k, dstW, c);
        CellAtNonNegative(k, dstW, c);
        DownscaleKeepsBytes(src, cell.y, cell.x, cell.ch, dstW, dstH, c, srcW, srcH);
      }
    }
  }

  // ---------------------------------------------------------------------
  // Properties of the resize
  // ---------------------------------------------------------------------

  /** With equal source and destination sizes the coordinates are exact, the
      weights are 0 and 1, and output pixel (`y`, `x`) copies source pixel
      (`min(y, srcH - 2)`, `min(x, srcW - 2)`): the last row and the last
      column are replaced by their neighbours. */
  lemma IdentityResizeCopiesClampedPixel(src: seq<int>, y: int, x: int, ch: int, w: int, h: int, c: int)
    requires ResizeGeometry(src, w, h, c, w, h)
    requires 0 <= y < h && 0 <= x < w && 0 <= ch < c
    ensures var row := if y < h - 1 then y else h - 2;
            var col := if x < w - 1 then x else w - 2;
            0 <= FlatIndex(row, col, ch, w, c) < |src|
            && OutputSample(src, y, x, ch, w, h, c, w, h) == src[FlatIndex(row, col, ch, w, c)]
  {
    assert w as real / w as real == 1.0;
    assert h as real / h as real == 1.0;
    assert SourceCoord(x, w, w) == x as real;
    assert SourceCoord(y, h, h) == y as real;
    var rt := RowTap(y, h, h);
    var ct := ColumnTap(x, w, w);
    assert rt.frac == 0.0 && ct.frac == 0.0;
    var offs := ReadOffsets(y, x, ch, w, h, c, w, h);
    ReadsInBounds(src, y, x, ch, w, h, c, w, h);
    assert Blend(src[offs[0]], src[offs[1]], src[offs[2]], src[offs[3]], 0.0, 0.0) == src[offs[0]] as real;
  }

  /** Hence an identity-size resize is not bit-exact: in the 2 x 2 grey image
      below the bottom-right pixel comes back as the top-left one. */
  lemma IdentityResizeNotExact()
    ensures OutputSample([0, 0, 0, 255], 1, 1, 0, 2, 2, 1, 2, 2) == 0
  {
    IdentityResizeCopiesClampedPixel([0, 0, 0, 255], 1, 1, 0, 2, 2, 1);
  }

  /** A convex combination of bytes is a byte. */
  lemma LerpInRange(a: real, b: real, t: real)
    requires 0.0 <= a <= 255.0 && 0.0 <= b <= 255.0 && 0.0 <= t <= 1.0
    ensures 0.0 <= a * (1.0 - t) + b * t <= 255.0
  {
    assert 0.0 <= a * (1.0 - t) <= 255.0 * (1.0 - t);
    assert 0.0 <= b * t <= 255.0 * t;
  }

  lemma BlendInRange(p00: int, p01: int, p10: int, p11: int, fx: real, fy: real)
    requires IsByte(p00) && IsByte(p01) && IsByte(p10) && IsByte(p11)
    requires 0.0 <= fx <= 1.0 && 0.0 <= fy <= 1.0
    ensures 0.0 <= Blend(p00, p01, p10, p11, fx, fy) <= 255.0
  {
    var top := p00 as real * (1.0 - fx) + p01 as real * fx;
    var bottom := p10 as real * (1.0 - fx) + p11 as real * fx;
    LerpInRange(p00 as real, p01 as real, fx);
    LerpInRange(p10 as real, p11 as real, fx);
    LerpInRange(top, bottom, fy);
    assert Blend(p00, p01, p10, p11, fx, fy) == top * (1.0 - fy) + bottom * fy;
  }

  /** When not enlarging, the source coordinate is never negative, so its
      fractional part lies in [0, 1). */
  lemma DownscaleFraction(out: int, srcDim: int, dstDim: int)
    requires 1 <= dstDim <= srcDim && 0 <= out
    ensures 0.0 <= SourceCoord(out, srcDim, dstDim)
    ensures 0.0 <= SourceCoord(out, srcDim, dstDim) - Trunc(SourceCoord(out, srcDim, dstDim)) as real < 1.0
  {
    var s := srcDim as real / dstDim as real;
    assert s >= 1.0 by {
      assert s * dstDim as real == srcDim as real;
    }
    assert (out as real + 0.5) * s >= 0.5 * s;
  }

  /** When the resize does not enlarge either axis, all weights lie in
      [0, 1] and every stored value of a byte image is itself a byte, so the
      store into the `uint8_t` destination never leaves its range. */
  lemma DownscaleKeepsBytes(src: seq<int>, y: int, x: int, ch: int, dstW: int, dstH: int, c: int, srcW: int, srcH: int)
    requires ResizeGeometry(src, dstW, dstH, c, srcW, srcH)
    requires AllBytes(src)
    requires dstW <= srcW && dstH <= srcH
    requires 0 <= y && 0 <= x && 0 <= ch < c
    ensures IsByte(OutputSample(src, y, x, ch, dstW, dstH, c, srcW, srcH))
  {
    DownscaleFraction(y, srcH, dstH);
    DownscaleFraction(x, srcW, dstW);
    var rt := RowTap(y, srcH, dstH);
    var ct := ColumnTap(x, srcW, dstW);
    assert 0.0 <= rt.frac <= 1.0 && 0.0 <= ct.frac <= 1.0;
    var offs := ReadOffsets(y, x, ch, dstW, dstH, c, srcW, srcH);
    ReadsInBounds(src, y, x, ch, dstW, dstH, c, srcW, srcH);
    BlendInRange(src[offs[0]], src[offs[1]], src[offs[2]], src[offs[3]], ct.frac, rt.frac);
  }

  /** Enlarging is not range-safe. Doubling a two-pixel axis puts output 0
      at source coordinate -0.25, which `(int)` truncates to 0 without
      triggering either clamp, so the neighbour gets weight -0.25 on both
      axes; with 255 in the top row and 0 in the bottom row the blend
      extrapolates to 319, a value the `uint8_t` store cannot hold. */
  lemma UpscaleOvershoots()
    ensures RowTap(0, 2, 4) == Tap(0, -0.25)
    ensures ColumnTap(0, 2, 4) == Tap(0, -0.25)
    ensures Round(Blend(255, 255, 0, 0, -0.25, -0.25)) == 319
  {
    assert SourceCoord(0, 2, 4) == -0.25;
    assert Trunc(-0.25) == 0;
    assert Blend(255, 255, 0, 0, -0.25, -0.25) == 318.75;
  }

  // ---------------------------------------------------------------------
  // RGB888 to signed grey
  // ---------------------------------------------------------------------

  /** Integer luma `(305 r + 600 g + 119 b) >> 10`, the ITU-R BT.601 weights
      0.299 / 0.587 / 0.114 scaled by 1024 and rounded so that they sum to
      exactly 1024. The sum is never negative, so `>> 10` is floor division. */
  function Luma(r: int, g: int, b: int): int {
    (305 * r + 600 * g + 119 * b) / 1024
  }

  /** The grey model input pixel: the luma shifted by -128 and stored in an
      `int8_t`. */
  function GreyPixel(r: int, g: int, b: int): (v: int)
    requires IsByte(r) && IsByte(g) && IsByte(b)
    ensures IsInt8(v)
    ensures v == Luma(r, g, b) - 128
  {
    ToInt8(Luma(r, g, b) - 128)
  }

  /** The luma of bytes is a byte, so the shifted value needs no wrap-around;
      white maps to 127 and black to -128. */
  lemma LumaIsByte(r: int, g: int, b: int)
    requires IsByte(r) && IsByte(g) && IsByte(b)
    ensures IsByte(Luma(r, g, b))
    ensures GreyPixel(255, 255, 255) == 127 && GreyPixel(0, 0, 0) == -128
  {
    assert 0 <= 305 * r + 600 * g + 119 * b <= 1024 * 255;
  }

  /** The weights sum to 1024, so a neutral grey `(v, v, v)` keeps its level
      exactly: it becomes `v - 128`. */
  lemma NeutralGreyExact(v: int)
    requires IsByte(v)
    ensures GreyPixel(v, v, v) == v - 128
  {
    assert 305 * v + 600 * v + 119 * v == v * 1024;
  }

  /** A brighter channel never gives a darker grey. */
  lemma GreyMonotone(r: int, g: int, b: int, r': int, g': int, b': int)
    requires IsByte(r) && IsByte(g) && IsByte(b) && IsByte(r') && IsByte(g') && IsByte(b')
    requires r <= r' && g <= g' && b <= b'
    ensures GreyPixel(r, g, b) <= GreyPixel(r', g', b')
  {
    assert 305 * r + 600 * g + 119 * b <= 305 * r' + 600 * g' + 119 * b';
  }

  /** The quantisation loop over an interleaved RGB888 image: pixel `i` of the
      model input is the grey value of bytes `3i`, `3i + 1`, `3i + 2`. */
  method QuantiseGrey(rgb: seq<int>, pixels: int) returns (grey: seq<int>)
    requires 0 <= pixels && |rgb| == pixels * RgbChannels && AllBytes(rgb)
    ensures |grey| == pixels
    ensures AllInt8(grey)
    ensures forall i :: 0 <= i < pixels ==> grey[i] == Luma(rgb[3 * i], rgb[3 * i + 1], rgb[3 * i + 2]) - 128
  {
    grey := [];
    var i := 0;
    while i < pixels
      invariant 0 <= i <= pixels
      invariant |grey| == i
      invariant AllInt8(grey)
      invariant forall j :: 0 <= j < i ==> grey[j] == Luma(rgb[3 * j], rgb[3 * j + 1], rgb[3 * j + 2]) - 128
    {
      grey := grey + [GreyPixel(rgb[3 * i], rgb[3 * i + 1], rgb[3 * i + 2])];
      i := i + 1;
    }
  }

  // ---------------------------------------------------------------------
  // Decision
  // ---------------------------------------------------------------------

  datatype Decision = Person | NoPerson

  /** The report branch of the detector. */
  function Classify(personScore: int): Decision {
    if personScore > PersonThreshold then Person else NoPerson
  }

  /** The decision is monotone in the score: a higher score never turns a
      person into no person. */
  lemma ClassifyThreshold(s: int, t: int)
    requires s <= t
    ensures Classify(s) == Person ==> Classify(t) == Person
    ensures Classify(t) == NoPerson ==> Classify(s) == NoPerson
  {
  }
}
