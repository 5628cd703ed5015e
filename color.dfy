/**
 * YUV 4:2:0 to RGB conversion: the integer BT.601 formulas with saturation, and the traversal
 * that walks the luma plane two rows at a time, advancing one chroma sample per 2x2 block,
 * writing planar RGB, interleaved RGB or interleaved RGBA (alpha 255) into fresh planes.
 */
module Color {
  import opened Wrappers
  import opened Text
  import opened Frame

  /** `clip(n, low, high)`: `low` below the range, `high` above it, `n` inside it. */
  function Clip(n: int, low: int, high: int): (r: int)
    ensures low <= high ==> low <= r <= high
    ensures low <= n <= high ==> r == n
  {
    if n < low then low else if n > high then high else n
  }

  /** `clipByte`: saturates to a byte, and leaves a value already in range unchanged. */
  function ClipByte(n: int): (b: byte)
    ensures 0 <= n <= 255 ==> b as int == n
    ensures n < 0 ==> b == 0
    ensures n > 255 ==> b == 255
  {
    Clip(n, 0, 255) as byte
  }

  /** Reading `data[i]` from a Buffer: `undefined` past its end. */
  function Sample(data: seq<byte>, i: nat): (s: Option<byte>)
    ensures s.Some? <==> i < |data|
    ensures s.Some? ==> s.value == data[i]
  {
    if i < |data| then Some(data[i]) else None
  }

  datatype Rgb = Rgb(r: byte, g: byte, b: byte)

  /**
   * The colour `yuvToRgb` stores for one luma sample and its chroma pair. Each channel is
   * `clipByte(sum >> 8)`; on these sums (well inside 32 bits) `>> 8` is floor division by
   * 256, which is what `/ 256` is here. A missing sample makes every sum it enters NaN,
   * `NaN >> 8` is 0, so such a channel stores 0.
   */
  function YuvToRgb(y: Option<byte>, u: Option<byte>, v: Option<byte>): (p: Rgb)
    ensures y.None? ==> p == Rgb(0, 0, 0)
    ensures u.None? ==> p.g == 0 && p.b == 0
    ensures v.None? ==> p.r == 0 && p.g == 0
  {
    var r := if y.Some? && v.Some? then
        ClipByte((298 * (y.value as int - 16) + 409 * (v.value as int - 128) + 128) / 256)
      else 0;
    var g := if y.Some? && u.Some? && v.Some? then
        ClipByte((298 * (y.value as int - 16) - 100 * (u.value as int - 128)
          - 208 * (v.value as int - 128) + 128) / 256)
      else 0;
    var b := if y.Some? && u.Some? then
        ClipByte((298 * (y.value as int - 16) + 516 * (u.value as int - 128) + 128) / 256)
      else 0;
    Rgb(r, g, b)
  }

  /** The grey level of luma `y` with neutral chroma (`U = V = 128`). */
  function GrayLevel(y: byte): byte {
    ClipByte((298 * (y as int - 16) + 128) / 256)
  }

  /** Neutral chroma gives a grey: all three channels are the grey level of the luma. */
  lemma NeutralChromaIsGray(y: byte)
    ensures YuvToRgb(Some(y), Some(128), Some(128)) == Rgb(GrayLevel(y), GrayLevel(y), GrayLevel(y))
  {
  }

  /** Brighter luma never gives a darker grey. */
  lemma GrayMonotone(y1: byte, y2: byte)
    requires y1 <= y2
    ensures GrayLevel(y1) <= GrayLevel(y2)
  {
    assert 298 * (y1 as int - 16) + 128 <= 298 * (y2 as int - 16) + 128;
  }

  /** Studio-range black and white: luma at or below 16 is black, at or above 235 is white. */
  lemma StudioRange(y: byte)
    ensures y <= 16 ==> YuvToRgb(Some(y), Some(128), Some(128)) == Rgb(0, 0, 0)
    ensures y >= 235 ==> YuvToRgb(Some(y), Some(128), Some(128)) == Rgb(255, 255, 255)
  {
    NeutralChromaIsGray(y);
    if y <= 16 {
      GrayMonotone(y, 16);
    } else if y >= 235 {
      GrayMonotone(235, y);
    }
  }

  /** The all-black and all-white test frames convert to exactly 0 and exactly 255. */
  lemma BlackAndWhite()
    ensures YuvToRgb(Some(0), Some(128), Some(128)) == Rgb(0, 0, 0)
    ensures YuvToRgb(Some(255), Some(128), Some(128)) == Rgb(255, 255, 255)
  {
    StudioRange(0);
    StudioRange(255);
  }

  // ---------------------------------------------------------------- 4:2:0 geometry

  /**
   * The chroma sample that luma offset `p` of a `w`-wide plane is converted with: column `x`
   * of the first row pair uses sample `x / 2`, and each further row pair starts `ceil(w/2)`
   * samples on.
   */
  function ChromaIndex(w: nat, p: nat): (c: nat)
    ensures w > 0 ==> c == (p / w / 2) * ((w + 1) / 2) + (p % w) / 2
    decreases p
  {
    if w == 0 then 0
    else if p < w then
      RowColumn(w, 0, p);
      p / 2
    else if p < 2 * w then
      RowColumn(w, 1, p - w);
      (p - w) / 2
    else
      var q, r := p / w, p % w;
      assert q * w + r == p && r < w;
      assert q >= 2 by {
        if q < 2 {
          MulMonotone(q, 1, w);
          assert false;
        }
      }
      MulSucc(q - 2, w);
      MulSucc(q - 1, w);
      assert p - 2 * w == (q - 2) * w + r;
      RowColumn(w, q - 2, r);
      MulSucc((q - 2) / 2, (w + 1) / 2);
      assert (q - 2) / 2 + 1 == q / 2;
      ChromaIndex(w, p - 2 * w) + (w + 1) / 2
  }

  /** Offset `row * w + col` is row `row`, column `col`. */
  lemma RowColumn(w: nat, row: nat, col: nat)
    requires col < w
    ensures (row * w + col) / w == row && (row * w + col) % w == col
  {
    var q := (row * w + col) / w;
    var r := (row * w + col) % w;
    assert q * w + r == row * w + col;
    if q < row {
      MulMonotone(q + 1, row, w);
      MulSucc(q, w);
      assert false;
    } else if q > row {
      MulMonotone(row + 1, q, w);
      MulSucc(row, w);
      assert false;
    }
  }

  /** Luma pixel `(x, y)` uses chroma index `(y/2) * ceil(w/2) + x/2`. */
  lemma ChromaIndexOf(w: nat, x: nat, y: nat)
    requires x < w
    ensures ChromaIndex(w, y * w + x) == (y / 2) * ((w + 1) / 2) + x / 2
  {
    RowColumn(w, y, x);
  }

  /** Every pixel of a `w x h` plane uses a chroma index below `ceil(w/2) * ceil(h/2)`. */
  lemma ChromaIndexInside(w: nat, h: nat, x: nat, y: nat)
    requires x < w && y < h
    ensures (y / 2) * ((w + 1) / 2) + x / 2 < ((h + 1) / 2) * ((w + 1) / 2)
  {
    var cw := (w + 1) / 2;
    MulSucc(y / 2, cw);
    MulMonotone(y / 2 + 1, (h + 1) / 2, cw);
  }

  /** Two pixels share a chroma sample exactly when they lie in the same 2x2 block. */
  lemma SameChromaIffSameBlock(w: nat, x1: nat, y1: nat, x2: nat, y2: nat)
    requires x1 < w && x2 < w
    ensures ChromaIndex(w, y1 * w + x1) == ChromaIndex(w, y2 * w + x2)
      <==> y1 / 2 == y2 / 2 && x1 / 2 == x2 / 2
  {
    ChromaIndexOf(w, x1, y1);
    ChromaIndexOf(w, x2, y2);
    BlockUnique((w + 1) / 2, y1 / 2, x1 / 2, y2 / 2, x2 / 2);
  }

  /** Row-major positions in a `cw`-wide grid are equal exactly for equal cells. */
  lemma BlockUnique(cw: nat, r1: nat, c1: nat, r2: nat, c2: nat)
    requires c1 < cw && c2 < cw
    ensures r1 * cw + c1 == r2 * cw + c2 <==> r1 == r2 && c1 == c2
  {
    RowColumn(cw, r1, c1);
    RowColumn(cw, r2, c2);
  }

  /**
   * Column `x` of row pair `i` (rows `2i` and `2i + 1`), whose luma offset starts at `2 * i * w`,
   * uses chroma index `i * ceil(w/2) + x/2` in both rows.
   */
  lemma PairChroma(w: nat, i: nat, offLuma: nat, offChroma: nat, x: nat)
    requires x < w && offLuma == 2 * i * w && offChroma == i * ((w + 1) / 2)
    ensures ChromaIndex(w, offLuma + x) == offChroma + x / 2
    ensures ChromaIndex(w, offLuma + x + w) == offChroma + x / 2
  {
    ChromaIndexOf(w, x, 2 * i);
    ChromaIndexOf(w, x, 2 * i + 1);
    MulSucc(2 * i, w);
    assert (2 * i) / 2 == i && (2 * i + 1) / 2 == i;
    assert offLuma + x == (2 * i) * w + x && offLuma + x + w == (2 * i + 1) * w + x;
  }

  /**
   * The four pixels of block `k` of row pair `i` share chroma index `offChroma + k`: columns
   * `2k` and `2k + 1`, at luma offsets `upper` and `upper + 1` and, one row down, `lower` and
   * `lower + 1`.
   */
  lemma BlockChroma(w: nat, i: nat, offLuma: nat, offChroma: nat, k: nat, upper: nat, lower: nat)
    requires k * 2 + 1 < w && offLuma == 2 * i * w && offChroma == i * ((w + 1) / 2)
    requires upper == offLuma + k * 2 && lower == upper + w
    ensures ChromaIndex(w, upper) == offChroma + k && ChromaIndex(w, upper + 1) == offChroma + k
    ensures ChromaIndex(w, lower) == offChroma + k && ChromaIndex(w, lower + 1) == offChroma + k
  {
    var j := k * 2;
    PairChroma(w, i, offLuma, offChroma, j);
    PairChroma(w, i, offLuma, offChroma, j + 1);
    assert j / 2 == k && (j + 1) / 2 == k;
    assert offLuma + (j + 1) == upper + 1 && offLuma + (j + 1) + w == lower + 1;
  }

  /** A block index below `w / 2` leaves room for both columns of the block. */
  lemma HalfBound(k: nat, w: nat)
    requires k < w / 2
    ensures k * 2 + 1 < w
  {
  }

  /** The colour the conversion gives luma offset `p` of `src`. */
  function Pixel(src: YuvFrame, p: nat): (c: Rgb)
    ensures p >= |src.y.data| ==> c == Rgb(0, 0, 0)
    ensures ChromaIndex(src.header.width, p) >= |src.u.data| ==> c.g == 0 && c.b == 0
    ensures ChromaIndex(src.header.width, p) >= |src.v.data| ==> c.r == 0 && c.g == 0
  {
    var c := ChromaIndex(src.header.width, p);
    YuvToRgb(Sample(src.y.data, p), Sample(src.u.data, c), Sample(src.v.data, c))
  }

  /** Planes holding 4:2:0 sizes: every read of the conversion finds its sample. */
  lemma FullPlanes(src: YuvFrame, p: nat)
    requires p < src.header.width * src.header.height
    requires |src.y.data| >= src.header.width * src.header.height
    requires |src.u.data| >= ((src.header.height + 1) / 2) * ((src.header.width + 1) / 2)
    requires |src.v.data| >= ((src.header.height + 1) / 2) * ((src.header.width + 1) / 2)
    ensures var c := ChromaIndex(src.header.width, p);
      c < |src.u.data| && c < |src.v.data| &&
      Pixel(src, p) == YuvToRgb(Some(src.y.data[p]), Some(src.u.data[c]), Some(src.v.data[c]))
  {
    var w, h := src.header.width, src.header.height;
    var x, y := Coordinates(w, h, p);
    ChromaIndexOf(w, x, y);
    ChromaIndexInside(w, h, x, y);
  }

  /** Offset `p` of a `w x h` plane is column `x` of row `y`. */
  lemma Coordinates(w: nat, h: nat, p: nat) returns (x: nat, y: nat)
    requires p < w * h
    ensures x < w && y < h && p == y * w + x
  {
    if w == 0 {
      assert false;
    }
    x, y := p % w, p / w;
    if y >= h {
      MulMonotone(h, y, w);
      assert false;
    }
  }

  // ---------------------------------------------------------------- writing pixels

  /**
   * Where the conversion stores pixels: the three fresh planes of `toRGB`, or the one buffer
   * of `toRGBInterleaved` (3 bytes a pixel) or of `toRGBAInterleaved` (4 bytes a pixel).
   */
  datatype Target =
    | Planar(r: array<byte>, g: array<byte>, b: array<byte>)
    | Interleaved(rgb: array<byte>)
    | InterleavedAlpha(rgba: array<byte>)

  function Arrays(t: Target): set<array<byte>> {
    match t
    case Planar(r, g, b) => {r, g, b}
    case Interleaved(rgb) => {rgb}
    case InterleavedAlpha(rgba) => {rgba}
  }

  /** Sized for `n` pixels; the three planes are distinct buffers. */
  ghost predicate Fits(t: Target, n: nat) {
    match t
    case Planar(r, g, b) => r.Length == n && g.Length == n && b.Length == n && r != g && g != b && r != b
    case Interleaved(rgb) => rgb.Length == 3 * n
    case InterleavedAlpha(rgba) => rgba.Length == 4 * n
  }

  /** The bytes of one pixel: its colour, and its alpha byte where the layout has one. */
  datatype Stored = Stored(color: Rgb, alpha: Option<byte>)

  ghost function Read(t: Target, n: nat, p: nat): Stored
    requires Fits(t, n) && p < n
    reads Arrays(t)
  {
    match t
    case Planar(r, g, b) => Stored(Rgb(r[p], g[p], b[p]), None)
    case Interleaved(rgb) => Stored(Rgb(rgb[3 * p], rgb[3 * p + 1], rgb[3 * p + 2]), None)
    case InterleavedAlpha(rgba) =>
      Stored(Rgb(rgba[4 * p], rgba[4 * p + 1], rgba[4 * p + 2]), Some(rgba[4 * p + 3]))
  }

  /** What converting a pixel to colour `c` stores: RGBA adds an opaque alpha. */
  function Encode(t: Target, c: Rgb): Stored {
    if t.InterleavedAlpha? then Stored(c, Some(255)) else Stored(c, None)
  }

  /** The stored pixels of the target, in luma order. */
  ghost function View(t: Target, n: nat): (v: seq<Stored>)
    requires Fits(t, n)
    reads Arrays(t)
    ensures |v| == n
  {
    seq(n, q requires 0 <= q < n && Fits(t, n) reads Arrays(t) => Read(t, n, q))
  }
  /**
   * `yuvToRgb`: converts one sample triple and stores R, G and B, in that order, at their
   * destinations. A destination past the end of its Buffer is ignored, as Buffer writes are;
   * where two destinations coincide the later write wins.
   */
  method YuvToRgbInto(yData: seq<byte>, yOffset: nat, uData: seq<byte>, uOffset: nat,
                      vData: seq<byte>, vOffset: nat, rData: array<byte>, rOffset: nat,
                      gData: array<byte>, gOffset: nat, bData: array<byte>, bOffset: nat)
    modifies rData, gData, bData
    ensures var c := YuvToRgb(Sample(yData, yOffset), Sample(uData, uOffset), Sample(vData, vOffset));
      && (bOffset < bData.Length ==> bData[bOffset] == c.b)
      && (gOffset < gData.Length && !(gData == bData && gOffset == bOffset) ==> gData[gOffset] == c.g)
      && ((rOffset < rData.Length && !(rData == gData && rOffset == gOffset)
           && !(rData == bData && rOffset == bOffset)) ==> rData[rOffset] == c.r)
    ensures forall i | 0 <= i < rData.Length && i != rOffset && (rData == gData ==> i != gOffset)
      && (rData == bData ==> i != bOffset) :: rData[i] == old(rData[i])
    ensures forall i | 0 <= i < gData.Length && i != gOffset && (gData == rData ==> i != rOffset)
      && (gData == bData ==> i != bOffset) :: gData[i] == old(gData[i])
    ensures forall i | 0 <= i < bData.Length && i != bOffset && (bData == rData ==> i != rOffset)
      && (bData == gData ==> i != gOffset) :: bData[i] == old(bData[i])
  {
    var c := YuvToRgb(Sample(yData, yOffset), Sample(uData, uOffset), Sample(vData, vOffset));
    Store(rData, rOffset, c.r);
    Store(gData, gOffset, c.g);
    Store(bData, bOffset, c.b);
  }

  /** A Buffer write: byte `i` becomes `v`, or nothing happens when `i` is past the end. */
  method Store(a: array<byte>, i: nat, v: byte)
    modifies a
    ensures i < a.Length ==> a[..] == old(a[..])[i := v]
    ensures i >= a.Length ==> a[..] == old(a[..])
  {
    if i < a.Length {
      a[i] := v;
    }
  }


  /**
   * The `conversion` callback of `toRGB`, `toRGBInterleaved` and `toRGBAInterleaved`: converts
   * luma `offLuma` with chroma `offChroma` into pixel `offLuma` of the target, touching no
   * other pixel.
   */
  method Convert(src: YuvFrame, t: Target, ghost n: nat, offLuma: nat, offChroma: nat)
    requires Fits(t, n) && offLuma < n
    modifies Arrays(t)
    ensures View(t, n) == old(View(t, n))[offLuma := Encode(t, YuvToRgb(Sample(src.y.data, offLuma),
      Sample(src.u.data, offChroma), Sample(src.v.data, offChroma)))]
  {
    match t
    case Planar(r, g, b) =>
      YuvToRgbInto(src.y.data, offLuma, src.u.data, offChroma, src.v.data, offChroma,
        r, offLuma, g, offLuma, b, offLuma);
    case Interleaved(rgb) =>
      YuvToRgbInto(src.y.data, offLuma, src.u.data, offChroma, src.v.data, offChroma,
        rgb, offLuma * 3, rgb, offLuma * 3 + 1, rgb, offLuma * 3 + 2);
    case InterleavedAlpha(rgba) =>
      YuvToRgbInto(src.y.data, offLuma, src.u.data, offChroma, src.v.data, offChroma,
        rgba, offLuma * 4, rgba, offLuma * 4 + 1, rgba, offLuma * 4 + 2);
      rgba[offLuma * 4 + 3] := 255;
  }

  // ---------------------------------------------------------------- the traversal

  /** One invocation of the `conversion` callback: a luma offset and the chroma offset paired with it. */
  datatype Call = Call(offLuma: nat, offChroma: nat)

  /** The luma offsets a sequence of calls converts. */
  function Lumas(calls: seq<Call>): set<nat> {
    if calls == [] then {} else Lumas(calls[..|calls| - 1]) + {calls[|calls| - 1].offLuma}
  }

  /** Every call converts a luma offset below `n` with the chroma index of that offset. */
  ghost predicate Paired(w: nat, n: nat, calls: seq<Call>) {
    forall m | 0 <= m < |calls| ::
      calls[m].offLuma < n && calls[m].offChroma == ChromaIndex(w, calls[m].offLuma)
  }

  /** Luma offsets `lo .. hi - 1` are all converted by some call. */
  ghost predicate Covers(calls: seq<Call>, lo: nat, hi: nat) {
    forall q | lo <= q < hi :: q in Lumas(calls)
  }

  /** Converting the two more offsets `hi` and `hi + 1` extends a covered range by them. */
  lemma CoversPair(before: seq<Call>, after: seq<Call>, lo: nat, hi: nat)
    requires Covers(before, lo, hi) && Lumas(after) == Lumas(before) + {hi, hi + 1}
    ensures Covers(after, lo, hi + 2)
  {
  }

  /**
   * Converting the 2x2 block whose upper pixels are `hi` and `hi + 1` and whose lower pixels are
   * `hi2` and `hi2 + 1` extends the two covered row ranges by two each.
   */
  lemma CoversBlock(before: seq<Call>, after: seq<Call>, lo: nat, hi: nat, lo2: nat, hi2: nat)
    requires Covers(before, lo, hi) && Covers(before, lo2, hi2)
    requires Lumas(after) == Lumas(before) + {hi, hi + 1} + {hi2, hi2 + 1}
    ensures Covers(after, lo, hi + 2) && Covers(after, lo2, hi2 + 2)
  {
  }

  /**
   * One `conversion(src, dst, offLuma, offChroma)` of the traversal, appended to the calls so far;
   * `offChroma` is the chroma index of `offLuma` in a `w`-wide frame of `n` pixels.
   */
  method Invoke(ghost w: nat, ghost n: nat, calls: seq<Call>, offLuma: nat, offChroma: nat)
    returns (r: seq<Call>)
    requires Paired(w, n, calls) && offLuma < n && offChroma == ChromaIndex(w, offLuma)
    ensures r == calls + [Call(offLuma, offChroma)]
    ensures Paired(w, n, r) && Lumas(r) == Lumas(calls) + {offLuma}
  {
    r := calls + [Call(offLuma, offChroma)];
    assert r[..|r| - 1] == calls;
  }

  /** Two calls for horizontally adjacent pixels `p` and `p + 1` that share chroma index `c`. */
  method Adjacent(ghost w: nat, ghost n: nat, calls: seq<Call>, p: nat, c: nat) returns (r: seq<Call>)
    requires Paired(w, n, calls) && p + 1 < n
    requires ChromaIndex(w, p) == c && ChromaIndex(w, p + 1) == c
    ensures |r| == |calls| + 2 && Paired(w, n, r) && Lumas(r) == Lumas(calls) + {p, p + 1}
  {
    r := Invoke(w, n, calls, p, c);
    r := Invoke(w, n, r, p + 1, c);
    assert Lumas(calls) + {p} + {p + 1} == Lumas(calls) + {p, p + 1};
  }

  /**
   * The column loop of row pair `i`, which starts at luma offset `offLuma`: one 2x2 block per
   * pass, the two pixels of the upper row, then the two below them, all with chroma offset
   * `offChroma + k`.
   */
  method PairColumns(w: nat, ghost n: nat, ghost i: nat, calls: seq<Call>, offLuma: nat, offChroma: nat)
    returns (r: seq<Call>, next: nat)
    requires offLuma == 2 * i * w && offChroma == i * ((w + 1) / 2) && offLuma + 2 * w <= n
    requires |calls| == offLuma && Paired(w, n, calls) && Covers(calls, 0, offLuma)
    ensures next == offChroma + w / 2 && |r| == offLuma + 4 * (w / 2) && Paired(w, n, r)
    ensures Covers(r, 0, offLuma + 2 * (w / 2)) && Covers(r, offLuma + w, offLuma + w + 2 * (w / 2))
  {
    var stride := w;
    r, next := calls, offChroma;
    var k := 0;
    while k < w / 2
      invariant k <= w / 2 && next == offChroma + k && |r| == offLuma + 4 * k
      invariant Paired(w, n, r) && Covers(r, 0, offLuma + 2 * k)
      invariant Covers(r, offLuma + w, offLuma + w + 2 * k)
    {
      ghost var before := r;
      HalfBound(k, w);
      var upper := offLuma + k * 2;
      var lower := upper + stride;
      BlockChroma(w, i, offLuma, offChroma, k, upper, lower);
      r := Adjacent(w, n, r, upper, next);
      r := Adjacent(w, n, r, lower, next);
      CoversBlock(before, r, 0, upper, offLuma + w, lower);
      next := next + 1;
      k := k + 1;
    }
  }

  /** One pass of the row-pair loop: the column loop, then the last column of an odd width. */
  method RowPair(w: nat, ghost n: nat, ghost i: nat, calls: seq<Call>, offLuma: nat, offChroma: nat)
    returns (r: seq<Call>, next: nat)
    requires offLuma == 2 * i * w && offChroma == i * ((w + 1) / 2) && offLuma + 2 * w <= n
    requires |calls| == offLuma && Paired(w, n, calls) && Covers(calls, 0, offLuma)
    ensures next == offChroma + (w + 1) / 2 && |r| == offLuma + 2 * w
    ensures Paired(w, n, r) && Covers(r, 0, offLuma + 2 * w)
  {
    var stride := w;
    r, next := PairColumns(w, n, i, calls, offLuma, offChroma);
    ghost var columns := r;
    if w % 2 != 0 {
      var j := w - 1;
      OddHalf(w);
      PairChroma(w, i, offLuma, offChroma, j);
      var p, q := offLuma + j, offLuma + j + stride;
      r := Invoke(w, n, r, p, next);
      r := Invoke(w, n, r, q, next);
      CoversRowPair(columns, r, offLuma, w, p, q);
      next := next + 1;
    } else {
      EvenHalf(w);
      CoversRowPair(columns, r, offLuma, w, 0, 0);
    }
  }

  lemma OddHalf(w: nat)
    requires w % 2 != 0
    ensures w > 0 && (w - 1) / 2 == w / 2 && (w + 1) / 2 == w / 2 + 1 && 2 * (w / 2) == w - 1
  {
  }

  lemma EvenHalf(w: nat)
    requires w % 2 == 0
    ensures (w + 1) / 2 == w / 2 && 2 * (w / 2) == w
  {
  }

  /** The column loop of a row pair and, for an odd width, the last column at `p` and `q` cover both rows. */
  lemma CoversRowPair(columns: seq<Call>, r: seq<Call>, offLuma: nat, w: nat, p: nat, q: nat)
    requires Covers(columns, 0, offLuma + 2 * (w / 2)) && Covers(columns, offLuma + w, offLuma + w + 2 * (w / 2))
    requires if w % 2 != 0 then p == offLuma + w - 1 && q == offLuma + 2 * w - 1 && Lumas(r) == Lumas(columns) + {p} + {q}
             else r == columns
    ensures Covers(r, 0, offLuma + 2 * w)
  {
    forall x | 0 <= x < offLuma + 2 * w
      ensures x in Lumas(r)
    {
      if x < offLuma + 2 * (w / 2) || (offLuma + w <= x < offLuma + w + 2 * (w / 2)) {
        assert x in Lumas(columns);
      }
    }
  }

  /** The column loop of the last row and, for an odd width, the last column at `p` cover the row. */
  lemma CoversLastRow(columns: seq<Call>, r: seq<Call>, offLuma: nat, w: nat, p: nat)
    requires Covers(columns, 0, offLuma + 2 * (w / 2))
    requires if w % 2 != 0 then p == offLuma + w - 1 && Lumas(r) == Lumas(columns) + {p} else r == columns
    ensures Covers(r, 0, offLuma + w)
  {
    forall x | 0 <= x < offLuma + w
      ensures x in Lumas(r)
    {
      if x < offLuma + 2 * (w / 2) {
        assert x in Lumas(columns);
      }
    }
  }

  /** The column loop of the odd last row `2i`: two pixels per pass, one chroma offset each pass. */
  method RowColumns(w: nat, ghost n: nat, ghost i: nat, calls: seq<Call>, offLuma: nat, offChroma: nat)
    returns (r: seq<Call>, next: nat)
    requires offLuma == 2 * i * w && offChroma == i * ((w + 1) / 2) && offLuma + w <= n
    requires |calls| == offLuma && Paired(w, n, calls) && Covers(calls, 0, offLuma)
    ensures next == offChroma + w / 2 && |r| == offLuma + 2 * (w / 2) && Paired(w, n, r)
    ensures Covers(r, 0, offLuma + 2 * (w / 2))
  {
    r, next := calls, offChroma;
    var k := 0;
    while k < w / 2
      invariant k <= w / 2 && next == offChroma + k && |r| == offLuma + 2 * k
      invariant Paired(w, n, r) && Covers(r, 0, offLuma + 2 * k)
    {
      var p := offLuma + k * 2;
      HalfBound(k, w);
      BlockChroma(w, i, offLuma, offChroma, k, p, p + w);
      ghost var before := r;
      r := Adjacent(w, n, r, p, next);
      CoversPair(before, r, 0, p);
      next := next + 1;
      k := k + 1;
    }
  }

  /** The odd last row: its column loop, then the last column of an odd width. */
  method LastRow(w: nat, ghost n: nat, ghost i: nat, calls: seq<Call>, offLuma: nat, offChroma: nat)
    returns (r: seq<Call>, next: nat)
    requires offLuma == 2 * i * w && offChroma == i * ((w + 1) / 2) && offLuma + w <= n
    requires |calls| == offLuma && Paired(w, n, calls) && Covers(calls, 0, offLuma)
    ensures next == offChroma + (w + 1) / 2 && |r| == offLuma + w
    ensures Paired(w, n, r) && Covers(r, 0, offLuma + w)
  {
    r, next := RowColumns(w, n, i, calls, offLuma, offChroma);
    ghost var columns := r;
    if w % 2 != 0 {
      var j := w - 1;
      OddHalf(w);
      PairChroma(w, i, offLuma, offChroma, j);
      var p := offLuma + j;
      r := Invoke(w, n, r, p, next);
      CoversLastRow(columns, r, offLuma, w, p);
      next := next + 1;
    } else {
      EvenHalf(w);
      CoversLastRow(columns, r, offLuma, w, 0);
    }
  }

  /**
   * `yuv420pToRgb` over a `width x height` frame: the calls of the `conversion` callback, in the
   * order the loops make them, row pairs first and then an odd last row. Every call pairs a luma
   * offset with the chroma index of its 2x2 block, every pixel is converted, there are exactly
   * `width * height` calls, and the chroma offset ends at `ceil(width/2) * ceil(height/2)`.
   */
  method Yuv420pToRgb(width: nat, height: nat) returns (calls: seq<Call>, ghost chroma: nat)
    ensures |calls| == width * height
    ensures Paired(width, width * height, calls)
    ensures Covers(calls, 0, width * height)
    ensures forall m1, m2 | 0 <= m1 < m2 < |calls| :: calls[m1].offLuma != calls[m2].offLuma
    ensures chroma == ((height + 1) / 2) * ((width + 1) / 2)
  {
    var w, h := width, height;
    ghost var n := w * h;
    ghost var cw := (w + 1) / 2;
    var stride := w;
    var offLuma, offChroma := 0, 0;
    calls := [];
    var i := 0;
    while i < h / 2
      invariant i <= h / 2 && offLuma == 2 * i * w && offChroma == i * cw
      invariant |calls| == offLuma && Paired(w, n, calls) && Covers(calls, 0, offLuma)
    {
      MulSucc(2 * i, w);
      MulSucc(2 * i + 1, w);
      MulMonotone(2 * i + 2, h, w);
      MulSucc(i, cw);
      calls, offChroma := RowPair(w, n, i, calls, offLuma, offChroma);
      offLuma := offLuma + 2 * stride;
      i := i + 1;
    }
    if h % 2 != 0 {
      MulSucc(2 * i, w);
      MulSucc(i, cw);
      assert h == 2 * i + 1;
      calls, offChroma := LastRow(w, n, i, calls, offLuma, offChroma);
      assert (h + 1) / 2 == i + 1;
    } else {
      assert h == 2 * i && (h + 1) / 2 == i;
    }
    chroma := offChroma;
    EachOffsetOnce(calls, n);
  }

  /** A call's offset is among the converted ones. */
  lemma {:induction false} LumasHas(calls: seq<Call>, m: nat)
    requires m < |calls|
    ensures calls[m].offLuma in Lumas(calls)
    decreases |calls|
  {
    if m < |calls| - 1 {
      LumasHas(calls[..|calls| - 1], m);
    }
  }

  /** `k` calls convert at most `k` offsets, fewer when two of them convert the same one. */
  lemma {:induction false} LumasCount(calls: seq<Call>, m1: nat, m2: nat)
    ensures |Lumas(calls)| <= |calls|
    ensures m1 < m2 < |calls| && calls[m1].offLuma == calls[m2].offLuma ==> |Lumas(calls)| < |calls|
    decreases |calls|
  {
    if calls != [] {
      var init := calls[..|calls| - 1];
      var last := calls[|calls| - 1].offLuma;
      if m1 < m2 < |calls| && calls[m1].offLuma == calls[m2].offLuma {
        if m2 == |calls| - 1 {
          LumasHas(init, m1);
          assert Lumas(calls) == Lumas(init);
          LumasCount(init, 0, 0);
        } else {
          LumasCount(init, m1, m2);
        }
      } else {
        LumasCount(init, 0, 0);
      }
    }
  }

  /** The offsets `0 .. n - 1`, of which there are `n`. */
  lemma {:induction false} RangeSize(n: nat) returns (range: set<nat>)
    ensures |range| == n
    ensures forall q: nat :: q in range <==> q < n
  {
    if n == 0 {
      range := {};
    } else {
      var below := RangeSize(n - 1);
      range := below + {n - 1};
      assert n - 1 !in below;
    }
  }

  /**
   * `n` calls that cover all `n` offsets convert each offset exactly once: no two calls convert
   * the same pixel.
   */
  lemma EachOffsetOnce(calls: seq<Call>, n: nat)
    requires |calls| == n && Covers(calls, 0, n)
    ensures forall m1, m2 | 0 <= m1 < m2 < n :: calls[m1].offLuma != calls[m2].offLuma
  {
    var range := RangeSize(n);
    assert range <= Lumas(calls) by {
      forall q | q in range
        ensures q in Lumas(calls)
      {
      }
    }
    forall m1, m2 | 0 <= m1 < m2 < n
      ensures calls[m1].offLuma != calls[m2].offLuma
    {
      if calls[m1].offLuma == calls[m2].offLuma {
        LumasCount(calls, m1, m2);
        SubsetSize(range, Lumas(calls));
        assert false;
      }
    }
  }

  lemma {:induction false} SubsetSize<T>(a: set<T>, b: set<T>)
    requires a <= b
    ensures |a| <= |b|
    decreases a
  {
    if a != {} {
      var x :| x in a;
      SubsetSize(a - {x}, b - {x});
    }
  }

  // ---------------------------------------------------------------- applying the calls

  /** The colour one call computes: its luma sample with its chroma samples. */
  function CallColor(src: YuvFrame, c: Call): Rgb {
    YuvToRgb(Sample(src.y.data, c.offLuma), Sample(src.u.data, c.offChroma), Sample(src.v.data, c.offChroma))
  }

  /** The stored pixels `v` after `calls`, applied in order; a later call to a pixel wins. */
  ghost function Replay(src: YuvFrame, t: Target, v: seq<Stored>, calls: seq<Call>): (r: seq<Stored>)
    ensures |r| == |v|
  {
    if calls == [] then v
    else
      var r := Replay(src, t, v, calls[..|calls| - 1]);
      var c := calls[|calls| - 1];
      if c.offLuma < |r| then r[c.offLuma := Encode(t, CallColor(src, c))] else r
  }

  /**
   * Replaying calls that each pair a luma offset with its own chroma index leaves every converted
   * pixel holding its `Pixel` colour and every other pixel as it was.
   */
  lemma {:induction false} ReplayConverts(src: YuvFrame, t: Target, v: seq<Stored>, calls: seq<Call>)
    requires Paired(src.header.width, |v|, calls)
    ensures forall q | 0 <= q < |v| ::
      Replay(src, t, v, calls)[q] == if q in Lumas(calls) then Encode(t, Pixel(src, q)) else v[q]
    decreases |calls|
  {
    if calls != [] {
      var init := calls[..|calls| - 1];
      var c := calls[|calls| - 1];
      assert Paired(src.header.width, |v|, init) by {
        forall m | 0 <= m < |init|
          ensures init[m] == calls[m]
        {
        }
      }
      ReplayConverts(src, t, v, init);
      assert CallColor(src, c) == Pixel(src, c.offLuma);
    }
  }

  /** The `conversion` callback applied for each call in turn, as the traversal makes them. */
  method ConvertAll(src: YuvFrame, t: Target, ghost n: nat, calls: seq<Call>)
    requires Fits(t, n) && forall m | 0 <= m < |calls| :: calls[m].offLuma < n
    modifies Arrays(t)
    ensures View(t, n) == Replay(src, t, old(View(t, n)), calls)
  {
    for m := 0 to |calls|
      invariant View(t, n) == Replay(src, t, old(View(t, n)), calls[..m])
    {
      Convert(src, t, n, calls[m].offLuma, calls[m].offChroma);
      assert calls[..m + 1][..m] == calls[..m];
    }
    assert calls[..|calls|] == calls;
  }

  /** A traversal of the whole frame leaves every pixel of the target holding its colour. */
  method ConvertFrame(src: YuvFrame, t: Target)
    requires Fits(t, src.header.width * src.header.height)
    modifies Arrays(t)
    ensures var n := src.header.width * src.header.height;
      forall p | 0 <= p < n :: View(t, n)[p] == Encode(t, Pixel(src, p))
  {
    var calls, _ := Yuv420pToRgb(src.header.width, src.header.height);
    ghost var n := src.header.width * src.header.height;
    ConvertAll(src, t, n, calls);
    ReplayConverts(src, t, old(View(t, n)), calls);
  }

  // ---------------------------------------------------------------- the three conversions

  /**
   * `toRGB`: three fresh `w x h` planes, pixel `p` of each holding the R, G and B of the
   * conversion of luma `p` with the chroma of its 2x2 block; the header is the source's.
   */
  method ToRgb(yuv: YuvFrame) returns (rgb: RgbFrame)
    ensures var w, h := yuv.header.width, yuv.header.height;
      && rgb.header == yuv.header
      && rgb.r.width == w && rgb.r.height == h && |rgb.r.data| == w * h
      && rgb.g.width == w && rgb.g.height == h && |rgb.g.data| == w * h
      && rgb.b.width == w && rgb.b.height == h && |rgb.b.data| == w * h
      && forall p | 0 <= p < w * h :: Rgb(rgb.r.data[p], rgb.g.data[p], rgb.b.data[p]) == Pixel(yuv, p)
  {
    var w, h := yuv.header.width, yuv.header.height;
    var r := new Gray(w, h);
    var g := new Gray(w, h);
    var b := new Gray(w, h);
    var t := Planar(r.data, g.data, b.data);
    ConvertFrame(yuv, t);
    forall p | 0 <= p < w * h
      ensures Rgb(r.data[p], g.data[p], b.data[p]) == Pixel(yuv, p)
    {
      assert View(t, w * h)[p] == Encode(t, Pixel(yuv, p));
    }
    rgb := RgbFrame(yuv.header, GrayImage(w, h, r.data[..]), GrayImage(w, h, g.data[..]),
                    GrayImage(w, h, b.data[..]));
  }

  /** `toRGBInterleaved`: one fresh `r, g, b` plane, pixel `p` at bytes `3p`, `3p + 1` and `3p + 2`. */
  method ToRgbInterleaved(yuv: YuvFrame) returns (rgb: InterleavedRgbFrame)
    ensures var w, h := yuv.header.width, yuv.header.height;
      && rgb.header == yuv.header
      && rgb.rgb.width == w && rgb.rgb.height == h && rgb.rgb.components == ["r", "g", "b"]
      && |rgb.rgb.data| == 3 * (w * h)
      && forall p | 0 <= p < w * h ::
           Rgb(rgb.rgb.data[3 * p], rgb.rgb.data[3 * p + 1], rgb.rgb.data[3 * p + 2]) == Pixel(yuv, p)
  {
    var w, h := yuv.header.width, yuv.header.height;
    var plane := new InterleavedPlane(w, h, ["r", "g", "b"]);
    var t := Interleaved(plane.data);
    ConvertFrame(yuv, t);
    forall p | 0 <= p < w * h
      ensures Rgb(plane.data[3 * p], plane.data[3 * p + 1], plane.data[3 * p + 2]) == Pixel(yuv, p)
    {
      assert View(t, w * h)[p] == Encode(t, Pixel(yuv, p));
    }
    rgb := InterleavedRgbFrame(yuv.header, InterleavedImage(w, h, ["r", "g", "b"], plane.data[..]));
  }

  /**
   * `toRGBAInterleaved`: one fresh `r, g, b, a` plane, pixel `p` at bytes `4p .. 4p + 3`, its
   * alpha byte opaque (255).
   */
  method ToRgbaInterleaved(yuv: YuvFrame) returns (rgba: InterleavedRgbaFrame)
    ensures var w, h := yuv.header.width, yuv.header.height;
      && rgba.header == yuv.header
      && rgba.rgba.width == w && rgba.rgba.height == h && rgba.rgba.components == ["r", "g", "b", "a"]
      && |rgba.rgba.data| == 4 * (w * h)
      && forall p | 0 <= p < w * h ::
           && Rgb(rgba.rgba.data[4 * p], rgba.rgba.data[4 * p + 1], rgba.rgba.data[4 * p + 2]) == Pixel(yuv, p)
           && rgba.rgba.data[4 * p + 3] == 255
  {
    var w, h := yuv.header.width, yuv.header.height;
    var plane := new InterleavedPlane(w, h, ["r", "g", "b", "a"]);
    var t := InterleavedAlpha(plane.data);
    ConvertFrame(yuv, t);
    forall p | 0 <= p < w * h
      ensures Rgb(plane.data[4 * p], plane.data[4 * p + 1], plane.data[4 * p + 2]) == Pixel(yuv, p)
      ensures plane.data[4 * p + 3] == 255
    {
      assert View(t, w * h)[p] == Encode(t, Pixel(yuv, p));
    }
    rgba := InterleavedRgbaFrame(yuv.header, InterleavedImage(w, h, ["r", "g", "b", "a"], plane.data[..]));
  }
}
