/**
 * Bilinear resampling of YUV frames. An unchanged width returns the frame itself; otherwise the
 * luma plane is resampled to `w x hh` and both chroma planes to `floor(w/2) x floor(hh/2)`, where
 * `hh` is the given height or, without one, the aspect-preserving height rounded to an even number.
 * Ratios and blends are exact reals here.
 */
module Operators {
  import opened Wrappers
  import opened Text
  import opened Frame

  // ---------------------------------------------------------------- target dimensions

  /** `Math.round` on a real: the nearest integer, a half rounding up. */
  function Round(x: real): (n: int)
    ensures x - 0.5 < n as real <= x + 0.5
  {
    (x + 0.5).Floor
  }

  /**
   * The height `scaleBilinear` derives when none is given: `round(H * w / W)` with its lowest bit
   * cleared (`& ~1`), so always even and within 1.5 below, 0.5 above the aspect-preserving
   * height. A zero source width divides to Infinity, which `& ~1` turns into 0.
   */
  function EvenHeight(H: nat, w: nat, W: nat): (hh: nat)
    ensures hh % 2 == 0
    ensures W > 0 ==> (H * w) as real / W as real - 1.5 < hh as real <= (H * w) as real / W as real + 0.5
    ensures W == 0 ==> hh == 0
  {
    if W == 0 then 0
    else
      var n := Round((H * w) as real / W as real);
      n - n % 2
  }

  /** A 144x80 frame scaled to width 72 becomes 72x40. */
  lemma EvenHeightExample()
    ensures EvenHeight(80, 72, 144) == 40
  {
    assert (80 * 72) as real / 144 as real == 40.0;
    assert Round(40.0) == 40;
  }

  // ---------------------------------------------------------------- one destination pixel

  /** `readUInt8(i)`: the byte at `i`, a RangeError outside the buffer. */
  function ReadUInt8(data: seq<byte>, i: int): (r: Result<byte, Error>)
    ensures r.Ok? <==> 0 <= i < |data|
    ensures r.Ok? ==> r.value == data[i]
  {
    if 0 <= i < |data| then Ok(data[i]) else Err(OffsetOutOfRange)
  }

  /**
   * `x_ratio * j` (and `y_ratio * i`): destination sample `k` of a `d`-sample axis, mapped onto a
   * source axis of `s` samples with ratio `(s - 1) / d`.
   */
  function Position(s: nat, d: nat, k: nat): (p: real)
    requires k < d
    ensures k == 0 ==> p == 0.0
    ensures s >= 1 ==> 0.0 <= p
    ensures s >= 2 ==> p < s as real - 1.0
  {
    var ratio := (s as real - 1.0) / d as real;
    DivThenMul(s as real - 1.0, d as real);
    if s >= 2 then
      MulNonNegative(ratio, k as real);
      MulStrictlyBelow(k as real, d as real, ratio);
      ratio * k as real
    else if s == 1 then
      MulNonNegative(ratio, k as real);
      ratio * k as real
    else
      ratio * k as real
  }

  lemma MulNonNegative(a: real, b: real)
    requires a >= 0.0 && b >= 0.0
    ensures a * b >= 0.0
  {
  }

  lemma MulBelow(a: real, b: real, c: real)
    requires a <= b && c >= 0.0
    ensures a * c <= b * c
  {
  }

  lemma MulStrictlyBelow(a: real, b: real, c: real)
    requires a < b && c > 0.0
    ensures a * c < b * c
  {
  }

  lemma DivThenMul(a: real, d: real)
    requires d > 0.0
    ensures a / d * d == a
  {
  }

  /** A source axis of at least 2 samples: the left (upper) neighbour of every position is at most `s - 2`. */
  lemma PositionInside(s: nat, d: nat, k: nat)
    requires s >= 2 && k < d
    ensures 0 <= Position(s, d, k).Floor <= s - 2
  {
    var p := Position(s, d, k);
    assert (s - 2) as real < s as real - 1.0 <= (s - 1) as real;
    assert p.Floor as real <= p < (s - 1) as real;
  }

  /**
   * The blend `A(1-dx)(1-dy) + B dx(1-dy) + C dy(1-dx) + D dx dy`, floored; each byte is
   * multiplied by its weight, which in exact arithmetic is the same as multiplying left to right.
   */
  function Blend(a: byte, b: byte, c: byte, d: byte, dx: real, dy: real): (r: int)
    ensures dx == 0.0 && dy == 0.0 ==> r == a as int
    ensures a == b == c == d ==> r == a as int
  {
    WeightsSum(dx, dy);
    Mix(a, b, c, d, (1.0 - dx) * (1.0 - dy), dx * (1.0 - dy), dy * (1.0 - dx), dx * dy).Floor
  }

  /** The four bytes, each multiplied by its weight, summed. */
  function Mix(a: byte, b: byte, c: byte, d: byte, wa: real, wb: real, wc: real, wd: real): real {
    a as real * wa + b as real * wb + c as real * wc + d as real * wd
  }

  /** Four terms, each between 0 and 255 times its weight, with weights summing to 1, sum to at most 255. */
  lemma ConvexSum(ta: real, tb: real, tc: real, td: real, wa: real, wb: real, wc: real, wd: real)
    requires wa + wb + wc + wd == 1.0
    requires 0.0 <= ta <= 255.0 * wa && 0.0 <= tb <= 255.0 * wb
    requires 0.0 <= tc <= 255.0 * wc && 0.0 <= td <= 255.0 * wd
    ensures 0.0 <= ta + tb + tc + td <= 255.0
  {
  }

  lemma ByteTimesWeight(a: byte, w: real) returns (t: real)
    requires w >= 0.0
    ensures t == a as real * w && 0.0 <= t <= 255.0 * w
  {
    var x := a as real;
    t := x * w;
    MulNonNegative(x, w);
    MulBelow(x, 255.0, w);
  }

  /** The bilinear weights `(1-dx)(1-dy)`, `dx(1-dy)`, `dy(1-dx)` and `dx dy` sum to 1. */
  lemma WeightsSum(dx: real, dy: real)
    ensures (1.0 - dx) * (1.0 - dy) + dx * (1.0 - dy) + dy * (1.0 - dx) + dx * dy == 1.0
  {
    var p := dx * dy;
    assert (1.0 - dx) * (1.0 - dy) == 1.0 - dx - dy + p;
    assert dx * (1.0 - dy) == dx - p;
    assert dy * (1.0 - dx) == dy - p;
  }

  lemma FloorInside(x: real)
    requires 0.0 <= x <= 255.0
    ensures 0 <= x.Floor <= 255
  {
  }

  /** The bilinear weights are non-negative and sum to 1. */
  lemma WeightsConvex(dx: real, dy: real)
    requires 0.0 <= dx < 1.0 && 0.0 <= dy < 1.0
    ensures (1.0 - dx) * (1.0 - dy) >= 0.0 && dx * (1.0 - dy) >= 0.0
    ensures dy * (1.0 - dx) >= 0.0 && dx * dy >= 0.0
    ensures (1.0 - dx) * (1.0 - dy) + dx * (1.0 - dy) + dy * (1.0 - dx) + dx * dy == 1.0
  {
    MulNonNegative(1.0 - dx, 1.0 - dy);
    MulNonNegative(dx, 1.0 - dy);
    MulNonNegative(dy, 1.0 - dx);
    MulNonNegative(dx, dy);
    WeightsSum(dx, dy);
  }

  /** Bytes weighted by non-negative weights summing to 1 blend to a real in [0, 255]. */
  lemma MixInRange(a: byte, b: byte, c: byte, d: byte, wa: real, wb: real, wc: real, wd: real)
    requires wa >= 0.0 && wb >= 0.0 && wc >= 0.0 && wd >= 0.0 && wa + wb + wc + wd == 1.0
    ensures 0.0 <= Mix(a, b, c, d, wa, wb, wc, wd) <= 255.0
  {
    var ta := ByteTimesWeight(a, wa);
    var tb := ByteTimesWeight(b, wb);
    var tc := ByteTimesWeight(c, wc);
    var td := ByteTimesWeight(d, wd);
    ConvexSum(ta, tb, tc, td, wa, wb, wc, wd);
  }

  /** The four weights are non-negative and sum to 1, so the blend of bytes is a byte. */
  lemma BlendInRange(a: byte, b: byte, c: byte, d: byte, dx: real, dy: real)
    requires 0.0 <= dx < 1.0 && 0.0 <= dy < 1.0
    ensures 0 <= Blend(a, b, c, d, dx, dy) <= 255
  {
    var wa, wb, wc, wd := (1.0 - dx) * (1.0 - dy), dx * (1.0 - dy), dy * (1.0 - dx), dx * dy;
    WeightsConvex(dx, dy);
    MixInRange(a, b, c, d, wa, wb, wc, wd);
    FloorInside(Mix(a, b, c, d, wa, wb, wc, wd));
  }

  /**
   * Destination pixel `(j, i)` of `scaleGrayBilinear(w, h, gray)`: the blend of the source pixel
   * at the floored position and its right, lower and lower-right neighbours, read with
   * `readUInt8`, so a RangeError when the lower-right read (the furthest) leaves the buffer.
   */
  function ScaledPixel(gray: GrayImage, w: nat, h: nat, i: nat, j: nat): (r: Result<int, Error>)
    requires i < h && j < w
    ensures var index := Position(gray.height, h, i).Floor * gray.width + Position(gray.width, w, j).Floor;
      r.Ok? <==> 0 <= index && index + gray.width + 1 < |gray.data|
    ensures r.Ok? ==> 0 <= r.value <= 255
    ensures r.Err? ==> r.error == OffsetOutOfRange
  {
    var fx, fy := Position(gray.width, w, j), Position(gray.height, h, i);
    var x, y := fx.Floor, fy.Floor;
    var index := y * gray.width + x;
    var a := ReadUInt8(gray.data, index);
    var b := ReadUInt8(gray.data, index + 1);
    var c := ReadUInt8(gray.data, index + gray.width);
    var d := ReadUInt8(gray.data, index + gray.width + 1);
    if a.Err? || b.Err? || c.Err? || d.Err? then Err(OffsetOutOfRange)
    else
      BlendInRange(a.value, b.value, c.value, d.value, fx - x as real, fy - y as real);
      Ok(Blend(a.value, b.value, c.value, d.value, fx - x as real, fy - y as real))
  }

  /** Every pixel of a `w x h` destination reads inside the source. */
  ghost predicate Readable(gray: GrayImage, w: nat, h: nat) {
    forall i, j | 0 <= i < h && 0 <= j < w :: ScaledPixel(gray, w, h, i, j).Ok?
  }

  /**
   * A source of at least 2x2 pixels holding its `width * height` bytes is readable at any
   * destination size: the neighbours of every position stay inside it.
   */
  lemma LargeSourceReadable(gray: GrayImage, w: nat, h: nat)
    requires gray.width >= 2 && gray.height >= 2 && |gray.data| >= gray.width * gray.height
    ensures Readable(gray, w, h)
  {
    forall i, j | 0 <= i < h && 0 <= j < w
      ensures ScaledPixel(gray, w, h, i, j).Ok?
    {
      var sw, sh := gray.width, gray.height;
      PositionInside(sw, w, j);
      PositionInside(sh, h, i);
      var x: nat, y: nat := Position(sw, w, j).Floor, Position(sh, h, i).Floor;
      MulMonotone(y, sh - 2, sw);
      assert (sh - 2) * sw + 2 * sw == sh * sw;
      assert y * sw + x + sw + 1 < sw * sh;
    }
  }

  /**
   * A source one row tall always throws: the lower neighbours are read from a row the buffer
   * does not have, although their weight is zero.
   */
  lemma OneRowSourceThrows(gray: GrayImage, w: nat, h: nat, i: nat, j: nat)
    requires gray.height == 1 && |gray.data| == gray.width && i < h && j < w
    ensures ScaledPixel(gray, w, h, i, j).Err?
  {
    assert Position(gray.height, h, i) == 0.0;
    if gray.width > 0 {
      assert 0.0 <= Position(gray.width, w, j);
    }
  }

  // ---------------------------------------------------------------- planes and frames

  /** `out` is the `w x h` resampling of `gray`, pixel `(j, i)` at byte `i * w + j`. */
  ghost predicate ScaledFrom(out: GrayImage, gray: GrayImage, w: nat, h: nat) {
    && out.width == w && out.height == h && |out.data| == w * h
    && forall i, j | 0 <= i < h && 0 <= j < w ::
         && ScaledPixel(gray, w, h, i, j).Ok?
         && i * w + j < |out.data|
         && out.data[i * w + j] as int == ScaledPixel(gray, w, h, i, j).value
  }

  /** Rows `0 .. i - 1` of the `w x h` destination `data` hold their resampled pixels. */
  ghost predicate RowsDone(gray: GrayImage, w: nat, h: nat, data: seq<byte>, i: nat) {
    forall y, x | 0 <= y < i && y < h && 0 <= x < w ::
      && ScaledPixel(gray, w, h, y, x).Ok?
      && PixelOffset(x, y, w, 1, 0) < |data|
      && data[PixelOffset(x, y, w, 1, 0)] as int == ScaledPixel(gray, w, h, y, x).value
  }

  /** Writing a pixel of row `i` leaves the rows above it as they were. */
  lemma WriteBelowRows(gray: GrayImage, w: nat, h: nat, data: seq<byte>, i: nat, j: nat, v: byte)
    requires j < w && PixelOffset(j, i, w, 1, 0) < |data| && RowsDone(gray, w, h, data, i)
    ensures RowsDone(gray, w, h, data[PixelOffset(j, i, w, 1, 0) := v], i)
  {
    forall y, x | 0 <= y < i && y < h && 0 <= x < w
      ensures PixelOffset(x, y, w, 1, 0) < PixelOffset(j, i, w, 1, 0)
    {
      RowEnd(y, i, w, x, 1);
    }
  }

  /**
   * The column loop of `scaleGrayBilinear` for row `i`: `putPixel(j, i, value)` for each `j`,
   * stopping at the first pixel whose reads leave the source.
   */
  method ScaleRow(w: nat, h: nat, gray: GrayImage, dst: Gray, i: nat) returns (ok: bool)
    requires dst.Valid() && dst.width == w && dst.height == h && i < h
    requires RowsDone(gray, w, h, dst.data[..], i)
    modifies dst.data
    ensures ok <==> forall x | 0 <= x < w :: ScaledPixel(gray, w, h, i, x).Ok?
    ensures ok ==> RowsDone(gray, w, h, dst.data[..], i + 1)
  {
    var j := 0;
    while j < w
      invariant j <= w && RowsDone(gray, w, h, dst.data[..], i)
      invariant forall x | 0 <= x < j ::
        && ScaledPixel(gray, w, h, i, x).Ok?
        && PixelOffset(x, i, w, 1, 0) < dst.data.Length
        && dst.data[PixelOffset(x, i, w, 1, 0)] as int == ScaledPixel(gray, w, h, i, x).value
    {
      var value := ScaledPixel(gray, w, h, i, j);
      if value.Err? {
        return false;
      }
      ghost var before := dst.data[..];
      PixelInsideIn(j, i, w, h, 1, 0);
      var o := dst.PutPixel(j, i, value.value);
      assert o.Pass?;
      WriteBelowRows(gray, w, h, before, i, j, value.value as byte);
      j := j + 1;
    }
    return true;
  }

  /**
   * `scaleGrayBilinear(w, h, gray)`: fills a fresh `w x h` plane row by row with `putPixel`.
   * Throws the RangeError of the first read past the source exactly when some pixel's reads leave
   * it; otherwise returns the resampled plane. The source is not changed.
   */
  method ScaleGray(w: nat, h: nat, gray: GrayImage) returns (r: Result<GrayImage, Error>)
    ensures r.Ok? <==> Readable(gray, w, h)
    ensures r.Ok? ==> ScaledFrom(r.value, gray, w, h)
    ensures r.Err? ==> r.error == OffsetOutOfRange
  {
    var dst := new Gray(w, h);
    var i := 0;
    while i < h
      invariant i <= h && RowsDone(gray, w, h, dst.data[..], i)
    {
      var ok := ScaleRow(w, h, gray, dst, i);
      if !ok {
        return Err(OffsetOutOfRange);
      }
      i := i + 1;
    }
    r := Ok(GrayImage(w, h, dst.data[..]));
  }

  /** The height of the result: the given one, or the even aspect-preserving one. */
  function TargetHeight(frame: YuvFrame, w: nat, h: Option<nat>): (hh: nat)
    ensures h.Some? ==> hh == h.value
    ensures h.None? ==> hh % 2 == 0
    ensures h.None? && frame.header.width > 0 ==>
      var exact := (frame.header.height * w) as real / frame.header.width as real;
      exact - 1.5 < hh as real <= exact + 0.5
    ensures h.None? && frame.header.width == 0 ==> hh == 0
  {
    if h.Some? then h.value else EvenHeight(frame.header.height, w, frame.header.width)
  }

  /**
   * `scaleBilinear(w, h)(frame)`. The same width returns the frame itself, even when `h`
   * differs. Otherwise the header becomes `w x hh` with the frame number kept, the luma plane is
   * resampled to `w x hh` and both chroma planes to `floor(w/2) x floor(hh/2)`; it throws exactly
   * when one of the three resamplings reads past its source.
   */
  method ScaleBilinear(w: nat, h: Option<nat>, frame: YuvFrame) returns (r: Result<YuvFrame, Error>)
    ensures frame.header.width == w ==> r == Ok(frame)
    ensures frame.header.width != w ==>
      var hh := TargetHeight(frame, w, h);
      && (r.Ok? <==> Readable(frame.y, w, hh) && Readable(frame.u, w / 2, hh / 2)
                     && Readable(frame.v, w / 2, hh / 2))
      && (r.Ok? ==>
            && r.value.header == FrameHeader(w, hh, frame.header.fn)
            && ScaledFrom(r.value.y, frame.y, w, hh)
            && ScaledFrom(r.value.u, frame.u, w / 2, hh / 2)
            && ScaledFrom(r.value.v, frame.v, w / 2, hh / 2))
  {
    if frame.header.width == w {
      return Ok(frame);
    }
    var hh := TargetHeight(frame, w, h);
    var w2, h2 := w / 2, hh / 2;
    var y := ScaleGray(w, hh, frame.y);
    if y.Err? {
      return Err(y.error);
    }
    var u := ScaleGray(w2, h2, frame.u);
    if u.Err? {
      return Err(u.error);
    }
    var v := ScaleGray(w2, h2, frame.v);
    if v.Err? {
      return Err(v.error);
    }
    r := Ok(YuvFrame(FrameHeader(w, hh, frame.header.fn), y.value, u.value, v.value));
  }
}
