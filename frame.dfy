/**
 * Pixel planes and frame shapes (src/frame.ts).
 *
 * A plane is a rectangle of 8-bit samples stored row-major in a byte buffer: `Gray` has one
 * sample per pixel, `InterleavedPlane` has one sample per named component per pixel, stored
 * next to each other in the declared component order. The classes keep their buffer as an
 * `array` because `putPixel` and `getSubimage` write into buffers in place; a frame holds the
 * immutable contents of its planes (`GrayImage`, `InterleavedImage`), which is what `View()`
 * of a class instance gives.
 */
module Frame {
  import opened Wrappers
  import opened Text

  datatype Rational = Rational(numerator: Num, denominator: Num)

  datatype Rectangle = Rectangle(x: nat, y: nat, width: nat, height: nat)

  datatype Dimension = Dimension(width: nat, height: nat)

  datatype Error =
    | InvalidRational(text: string)
    | InvalidBufferSize
    | ComponentNotFound(component: string)
    | CapacityTooSmall
    | SubimageOutOfBounds
    | OffsetOutOfRange
    | ValueOutOfRange

  /** `_parseRational`: exactly two pieces around the separator, each read with `parseInt`. */
  function TryParseRational(str: string, separator: char): (r: Option<Rational>)
    ensures r.Some? <==> Count(str, separator) == 1
    ensures r.Some? ==>
      var i := IndexOf(str, separator);
      0 <= i && r.value == Rational(ParseInt(str[..i]), ParseInt(str[i + 1..]))
  {
    var parts := Split(str, separator);
    if |parts| == 2 then
      assert str == parts[0] + ([separator] + parts[1]) by {
        assert parts[1..] == [parts[1]];
        assert Join(parts[1..], separator) == parts[1];
      }
      FirstOccurrence(parts[0], separator, parts[1]);
      Some(Rational(ParseInt(parts[0]), ParseInt(parts[1])))
    else None
  }

  /**
   * `parseRational`: `N:D` with exactly one colon. The fallback tries the same separator again,
   * so it never succeeds where the first attempt failed; a zero or NaN denominator is accepted.
   */
  function ParseRational(str: string): (r: Result<Rational, Error>)
    ensures r.Ok? <==> Count(str, ':') == 1
    ensures r.Ok? ==>
      var i := IndexOf(str, ':');
      0 <= i && r.value == Rational(ParseInt(str[..i]), ParseInt(str[i + 1..]))
    ensures r.Err? ==> r.error == InvalidRational(str)
  {
    match TryParseRational(str, ':')
    case Some(q) => Ok(q)
    case None =>
      match TryParseRational(str, ':')
      case Some(q) => Ok(q)
      case None => Err(InvalidRational(str))
  }

  lemma FirstOccurrence(t: string, c: char, rest: string)
    requires c !in t
    ensures IndexOf(t + ([c] + rest), c) == |t|
    ensures (t + ([c] + rest))[..|t|] == t && (t + ([c] + rest))[|t| + 1..] == rest
  {
    var s := t + ([c] + rest);
    var i := IndexOf(s, c);
    assert s[|t|] == c;
    assert forall k | 0 <= k < |t| :: s[k] == t[k];
    assert i >= |t|;
  }

  /** Byte position of component `idx` of pixel (x, y) in a row-major buffer. */
  function PixelOffset(x: nat, y: nat, stride: nat, components: nat, idx: nat): nat {
    y * stride + x * components + idx
  }

  lemma MulMonotone(a: nat, b: nat, c: nat)
    requires a <= b
    ensures a * c <= b * c
  {
  }

  /** A run of `n` bytes starting at column `x` of row `y < h` ends inside an `h`-row buffer. */
  lemma RowEnd(y: nat, h: nat, stride: nat, x: nat, n: nat)
    requires y < h && x + n <= stride
    ensures y * stride + x + n <= h * stride
  {
    assert (y + 1) * stride == y * stride + stride;
    MulMonotone(y + 1, h, stride);
  }

  /** A pixel inside the plane addresses a byte inside `width * height * components`. */
  lemma PixelInside(x: nat, y: nat, width: nat, height: nat, components: nat, idx: nat)
    ensures x < width && y < height && idx < components ==>
      PixelOffset(x, y, width * components, components, idx) < width * height * components
  {
    if x < width && y < height && idx < components {
      PixelInsideIn(x, y, width, height, components, idx);
    }
  }

  lemma PixelInsideIn(x: nat, y: nat, width: nat, height: nat, components: nat, idx: nat)
    requires x < width && y < height && idx < components
    ensures PixelOffset(x, y, width * components, components, idx) < width * height * components
  {
    MulMonotone(x + 1, width, components);
    assert x * components + idx < (x + 1) * components;
    RowEnd(y, height, width * components, x * components + idx, 1);
    assert height * (width * components) == width * height * components;
  }

  /**
   * The bytes `getSubimage` copies: rows `y0 .. y0 + rows - 1` of a buffer with `stride` bytes
   * per row, `rowLen` bytes from byte column `x0` of each row, one row after another.
   */
  function CropRows(data: seq<byte>, stride: nat, x0: nat, y0: nat, rowLen: nat, rows: nat): seq<byte>
    requires x0 + rowLen <= stride
    requires (y0 + rows) * stride <= |data|
  {
    if rows == 0 then []
    else
      RowEnd(y0 + rows - 1, y0 + rows, stride, x0, rowLen);
      MulMonotone(y0 + rows - 1, y0 + rows, stride);
      var start := (y0 + rows - 1) * stride + x0;
      CropRows(data, stride, x0, y0, rowLen, rows - 1) + data[start..start + rowLen]
  }

  lemma MulSucc(a: nat, b: nat)
    ensures (a + 1) * b == a * b + b
  {
  }

  /** Byte `j` of row `i` of the crop is byte `x0 + j` of source row `y0 + i`. */
  lemma {:induction false} CropRowsAt(data: seq<byte>, stride: nat, x0: nat, y0: nat, rowLen: nat, rows: nat, i: nat, j: nat)
    requires x0 + rowLen <= stride
    requires (y0 + rows) * stride <= |data|
    requires i < rows && j < rowLen
    ensures |CropRows(data, stride, x0, y0, rowLen, rows)| == rows * rowLen
    ensures 0 <= i * rowLen + j < rows * rowLen
    ensures 0 <= (y0 + i) * stride + x0 + j < |data|
    ensures CropRows(data, stride, x0, y0, rowLen, rows)[i * rowLen + j] == data[(y0 + i) * stride + x0 + j]
  {
    MulMonotone(0, i, rowLen);
    MulMonotone(0, y0 + i, stride);
    CropRowsLength(data, stride, x0, y0, rowLen, rows);
    RowEnd(i, rows, rowLen, j, 1);
    RowEnd(y0 + i, y0 + rows, stride, x0 + j, 1);
    if i + 1 < rows {
      CropRowsEarlierRow(data, stride, x0, y0, rowLen, rows, i, j);
      CropRowsAt(data, stride, x0, y0, rowLen, rows - 1, i, j);
    } else {
      CropRowsLastRow(data, stride, x0, y0, rowLen, rows, i, j);
    }
  }

  /** A byte of an earlier row is the same in the crop with one row less. */
  lemma CropRowsEarlierRow(data: seq<byte>, stride: nat, x0: nat, y0: nat, rowLen: nat, rows: nat, i: nat, j: nat)
    requires x0 + rowLen <= stride
    requires (y0 + rows) * stride <= |data|
    requires i + 1 < rows && j < rowLen
    ensures (y0 + rows - 1) * stride <= |data|
    ensures i * rowLen + j < (rows - 1) * rowLen
    ensures |CropRows(data, stride, x0, y0, rowLen, rows - 1)| == (rows - 1) * rowLen
    ensures CropRows(data, stride, x0, y0, rowLen, rows)[i * rowLen + j] ==
      CropRows(data, stride, x0, y0, rowLen, rows - 1)[i * rowLen + j]
  {
    MulMonotone(y0 + rows - 1, y0 + rows, stride);
    CropRowsLength(data, stride, x0, y0, rowLen, rows - 1);
    RowEnd(i, rows - 1, rowLen, j, 1);
  }

  /** A byte of the last row comes from the last source row. */
  lemma CropRowsLastRow(data: seq<byte>, stride: nat, x0: nat, y0: nat, rowLen: nat, rows: nat, i: nat, j: nat)
    requires x0 + rowLen <= stride
    requires (y0 + rows) * stride <= |data|
    requires i + 1 == rows && j < rowLen
    ensures |CropRows(data, stride, x0, y0, rowLen, rows)| == rows * rowLen
    ensures i * rowLen + j < rows * rowLen
    ensures (y0 + i) * stride + x0 + j < |data|
    ensures CropRows(data, stride, x0, y0, rowLen, rows)[i * rowLen + j] == data[(y0 + i) * stride + x0 + j]
  {
    MulMonotone(y0 + i, y0 + rows, stride);
    RowEnd(y0 + i, y0 + rows, stride, x0, rowLen);
    var head := CropRows(data, stride, x0, y0, rowLen, i);
    var start := (y0 + i) * stride + x0;
    var row := data[start..start + rowLen];
    assert CropRows(data, stride, x0, y0, rowLen, rows) == head + row;
    CropRowsLength(data, stride, x0, y0, rowLen, i);
    MulSucc(i, rowLen);
    assert (head + row)[|head| + j] == row[j];
  }

  lemma {:induction false} CropRowsLength(data: seq<byte>, stride: nat, x0: nat, y0: nat, rowLen: nat, rows: nat)
    requires x0 + rowLen <= stride
    requires (y0 + rows) * stride <= |data|
    ensures |CropRows(data, stride, x0, y0, rowLen, rows)| == rows * rowLen
  {
    if rows > 0 {
      MulMonotone(y0 + rows - 1, y0 + rows, stride);
      CropRowsLength(data, stride, x0, y0, rowLen, rows - 1);
      MulSucc(rows - 1, rowLen);
    }
  }

  /** Cropping every row at full width reproduces the first `rows * stride` bytes. */
  lemma {:induction false} CropRowsWhole(data: seq<byte>, stride: nat, rows: nat)
    requires rows * stride <= |data|
    ensures CropRows(data, stride, 0, 0, stride, rows) == data[..rows * stride]
  {
    if rows > 0 {
      MulMonotone(rows - 1, rows, stride);
      CropRowsWhole(data, stride, rows - 1);
      MulSucc(rows - 1, stride);
      assert data[..rows * stride] == data[..(rows - 1) * stride] + data[(rows - 1) * stride..rows * stride];
    }
  }

  /**
   * The copy loop of `getSubimage`: for each of `rows` rows, `dest.fill` with `rowLen` bytes of
   * the source starting at the running `offset`, which advances by one `stride` per row.
   */
  method CopyRows(data: array<byte>, stride: nat, x0: nat, y0: nat, rowLen: nat, rows: nat, dest: array<byte>)
    requires data != dest
    requires x0 + rowLen <= stride && (y0 + rows) * stride <= data.Length
    requires rows * rowLen <= dest.Length
    modifies dest
    ensures dest[..rows * rowLen] == CropRows(data[..], stride, x0, y0, rowLen, rows)
    ensures dest[rows * rowLen..] == old(dest[rows * rowLen..])
  {
    ghost var src := data[..];
    ghost var tail := dest[rows * rowLen..];
    MulMonotone(0, y0, stride);
    MulMonotone(y0, y0 + rows, stride);
    var offset: nat := y0 * stride + x0;
    for i := 0 to rows
      invariant offset == (y0 + i) * stride + x0
      invariant (y0 + i) * stride <= (y0 + rows) * stride
      invariant Copied(dest[..], src, stride, x0, y0, rowLen, rows, i, tail)
    {
      RowStep(i, rows, rowLen, y0, stride, x0);
      ghost var before := dest[..];
      FillRow(dest, i * rowLen, data, offset, rowLen);
      CopyRowsStep(src, stride, x0, y0, rowLen, rows, i, offset, before, dest[..], tail);
      offset := offset + stride;
    }
  }

  /** The state of the copy loop after `i` rows: those rows hold the crop, the tail is untouched. */
  ghost predicate Copied(d: seq<byte>, src: seq<byte>, stride: nat, x0: nat, y0: nat, rowLen: nat, rows: nat, i: nat, tail: seq<byte>)
  {
    && x0 + rowLen <= stride && (y0 + i) * stride <= |src|
    && i * rowLen <= rows * rowLen <= |d|
    && d[..i * rowLen] == CropRows(src, stride, x0, y0, rowLen, i)
    && d[rows * rowLen..] == tail
  }

  /** `dest.fill(data.subarray(offset, offset + n), base, base + n)`: one row of the copy. */
  method FillRow(dest: array<byte>, base: nat, data: array<byte>, offset: nat, n: nat)
    requires data != dest
    requires offset + n <= data.Length && base + n <= dest.Length
    modifies dest
    ensures dest[..] == old(dest[..base]) + data[offset..offset + n] + old(dest[base + n..])
  {
    forall j | 0 <= j < n {
      dest[base + j] := data[offset + j];
    }
  }

  /** The arithmetic of one step of the copy loop. */
  lemma RowStep(i: nat, rows: nat, rowLen: nat, y0: nat, stride: nat, x0: nat)
    requires i < rows && x0 + rowLen <= stride
    ensures (i + 1) * rowLen == i * rowLen + rowLen <= rows * rowLen
    ensures (y0 + i + 1) * stride == (y0 + i) * stride + stride
    ensures (y0 + i) * stride + x0 + rowLen <= (y0 + rows) * stride
    ensures (y0 + i + 1) * stride <= (y0 + rows) * stride
  {
    MulMonotone(y0 + i + 1, y0 + rows, stride);
    RowEnd(i, rows, rowLen, 0, rowLen);
    RowEnd(y0 + i, y0 + rows, stride, x0, rowLen);
    MulSucc(i, rowLen);
    MulSucc(y0 + i, stride);
  }

  /** Filling row `i` extends the copied prefix by one row of the crop and keeps the tail. */
  lemma CopyRowsStep(src: seq<byte>, stride: nat, x0: nat, y0: nat, rowLen: nat, rows: nat, i: nat,
                     offset: nat, before: seq<byte>, after: seq<byte>, tail: seq<byte>)
    requires Copied(before, src, stride, x0, y0, rowLen, rows, i, tail)
    requires (y0 + rows) * stride <= |src| && i < rows
    requires offset == (y0 + i) * stride + x0 && offset + rowLen <= |src|
    requires (y0 + i + 1) * stride <= |src|
    requires i * rowLen + rowLen == (i + 1) * rowLen <= rows * rowLen <= |before|
    requires after == before[..i * rowLen] + src[offset..offset + rowLen] + before[i * rowLen + rowLen..]
    ensures Copied(after, src, stride, x0, y0, rowLen, rows, i + 1, tail)
  {
    CropRowsStep(src, stride, x0, y0, rowLen, i, rows);
    SpliceParts(after, before[..i * rowLen], src[offset..offset + rowLen], before[i * rowLen + rowLen..], rows * rowLen);
  }

  /** The parts of a spliced sequence: the prefix up to the end of the middle, and any suffix after it. */
  lemma SpliceParts<T>(s: seq<T>, pre: seq<T>, mid: seq<T>, post: seq<T>, k: nat)
    requires s == pre + mid + post && |pre| + |mid| <= k <= |s|
    ensures s[..|pre| + |mid|] == pre + mid
    ensures s[k..] == post[k - |pre| - |mid|..]
  {
    assert s[..|pre| + |mid|] == (pre + mid + post)[..|pre| + |mid|];
  }

  /** Extending a crop by one row appends that row's bytes. */
  lemma CropRowsStep(data: seq<byte>, stride: nat, x0: nat, y0: nat, rowLen: nat, i: nat, rows: nat)
    requires x0 + rowLen <= stride && (y0 + rows) * stride <= |data| && i < rows
    ensures (y0 + i + 1) * stride <= |data|
    ensures (y0 + i) * stride + x0 + rowLen <= |data|
    ensures CropRows(data, stride, x0, y0, rowLen, i + 1) ==
      CropRows(data, stride, x0, y0, rowLen, i) + data[(y0 + i) * stride + x0..(y0 + i) * stride + x0 + rowLen]
  {
    MulMonotone(y0 + i + 1, y0 + rows, stride);
    MulMonotone(y0 + i, y0 + rows, stride);
    RowEnd(y0 + i, y0 + rows, stride, x0, rowLen);
  }

  /** The contents of a `Gray` plane. */
  datatype GrayImage = GrayImage(width: nat, height: nat, data: seq<byte>)

  /** The contents of an `InterleavedPlane`. */
  datatype InterleavedImage = InterleavedImage(width: nat, height: nat, components: seq<string>, data: seq<byte>)

  /** A planar 8-bit plane: pixel (x, y) is byte `y * width + x`. */
  class Gray {
    const width: nat
    const height: nat
    const data: array<byte>

    /** The buffer holds at least `width * height` bytes: checked by every way of building one. */
    ghost predicate Valid() {
      width * height <= data.Length
    }

    ghost function View(): GrayImage
      reads data
    {
      GrayImage(width, height, data[..])
    }

    /** `new Gray(width, height)`: a fresh buffer of exactly `width * height` bytes. */
    constructor (width: nat, height: nat)
      ensures this.width == width && this.height == height
      ensures fresh(data) && data.Length == width * height && Valid()
    {
      this.width := width;
      this.height := height;
      data := new byte[width * height];
    }

    /** A plane over a caller's buffer, shared and not copied (`data.subarray()` is a view). */
    constructor Over(width: nat, height: nat, data: array<byte>)
      requires width * height <= data.Length
      ensures this.width == width && this.height == height && this.data == data && Valid()
    {
      this.width := width;
      this.height := height;
      this.data := data;
    }

    /** `new Gray(width, height, data)`: throws iff the buffer is shorter than `width * height`. */
    static method Create(width: nat, height: nat, data: array<byte>) returns (r: Result<Gray, Error>)
      ensures r.Ok? <==> width * height <= data.Length
      ensures r.Ok? ==> r.value.width == width && r.value.height == height && r.value.data == data
      ensures r.Err? ==> r.error == InvalidBufferSize
    {
      if width * height > data.Length {
        return Err(InvalidBufferSize);
      }
      var g := new Gray.Over(width, height, data);
      return Ok(g);
    }

    /** `getPixel`: `readUInt8` at `y * width + x`, a RangeError past the end of the buffer. */
    function GetPixel(x: nat, y: nat): (r: Result<byte, Error>)
      reads data
      requires Valid()
      ensures x < width && y < height ==> r.Ok?
      ensures r.Ok? <==> PixelOffset(x, y, width, 1, 0) < data.Length
      ensures r.Ok? ==> r.value == data[PixelOffset(x, y, width, 1, 0)]
    {
      PixelInside(x, y, width, height, 1, 0);
      var offset := PixelOffset(x, y, width, 1, 0);
      if offset < data.Length then Ok(data[offset]) else Err(OffsetOutOfRange)
    }

    /**
     * `putPixel`: `writeUint8(pix, y * width + x)` rejects a value outside [0, 255] first, then
     * an offset past the end; otherwise it changes that one byte and nothing else.
     */
    method PutPixel(x: nat, y: nat, pix: int) returns (o: Outcome<Error>)
      requires Valid()
      modifies data
      ensures o.Pass? <==> 0 <= pix < 256 && PixelOffset(x, y, width, 1, 0) < data.Length
      ensures o.Pass? ==> data[..] == old(data[..])[PixelOffset(x, y, width, 1, 0) := pix as byte]
      ensures o.Pass? ==> GetPixel(x, y) == Ok(pix as byte)
      ensures o.Fail? ==> data[..] == old(data[..])
      ensures o.Fail? ==> o.error == if 0 <= pix < 256 then OffsetOutOfRange else ValueOutOfRange
      ensures x < width && y < height && 0 <= pix < 256 ==> o.Pass?
    {
      if x < width && y < height {
        PixelInside(x, y, width, height, 1, 0);
      }
      if pix < 0 || pix > 255 {
        return Fail(ValueOutOfRange);
      }
      var offset := PixelOffset(x, y, width, 1, 0);
      if offset >= data.Length {
        return Fail(OffsetOutOfRange);
      }
      data[offset] := pix as byte;
      return Pass;
    }

    function GetWidth(): (w: nat)
      ensures w == GetDimension().width
    {
      width
    }

    function GetHeight(): (h: nat)
      ensures h == GetDimension().height
    {
      height
    }

    /** The origin-based rectangle covering the plane. */
    function GetBounds(): (r: Rectangle)
      ensures r.x == 0 && r.y == 0 && r.width == width && r.height == height
    {
      Rectangle(0, 0, width, height)
    }

    function GetDimension(): (d: Dimension)
      ensures d.width == GetBounds().width && d.height == GetBounds().height
    {
      Dimension(width, height)
    }

    /**
     * `getSubimage`: copies the rectangle row by row into `dest` (or a fresh buffer) and wraps
     * it. The capacity check comes before the bounds check. The shortcut `r == getBounds()`
     * compares a fresh object by reference, so it never fires: even the full rectangle is
     * copied, into another plane.
     */
    method GetSubimage(r: Rectangle, dest: Option<array<byte>>) returns (res: Result<Gray, Error>)
      requires Valid()
      requires dest.Some? ==> dest.value != data
      modifies if dest.Some? then {dest.value} else {}
      ensures data[..] == old(data[..])
      ensures res.Ok? <==>
        (dest.None? || r.width * r.height <= dest.value.Length) &&
        r.x + r.width <= width && r.y + r.height <= height
      ensures res.Err? ==>
        res.error == if dest.Some? && dest.value.Length < r.width * r.height then CapacityTooSmall else SubimageOutOfBounds
      ensures res.Err? && dest.Some? ==> dest.value[..] == old(dest.value[..])
      ensures res.Ok? ==>
        var g := res.value;
        g != this && g.Valid() && g.width == r.width && g.height == r.height &&
        (dest.Some? ==> g.data == dest.value) && (dest.None? ==> fresh(g.data)) &&
        r.x + r.width <= width && (r.y + r.height) * width <= data.Length &&
        g.data[..r.width * r.height] == CropRows(data[..], width, r.x, r.y, r.width, r.height) &&
        (dest.Some? ==> g.data[r.width * r.height..] == old(dest.value[r.width * r.height..]))
    {
      var buf: array<byte>;
      if dest.Some? {
        buf := dest.value;
      } else {
        buf := new byte[r.width * r.height];
      }
      if buf.Length < r.width * r.height {
        return Err(CapacityTooSmall);
      }
      if r.x + r.width > width || r.y + r.height > height {
        return Err(SubimageOutOfBounds);
      }
      MulMonotone(r.y + r.height, height, width);
      CopyRows(data, width, r.x, r.y, r.width, r.height, buf);
      ghost var crop := buf[..r.width * r.height];
      assert crop == CropRows(data[..], width, r.x, r.y, r.width, r.height);
      var g := new Gray.Over(r.width, r.height, buf);
      assert g.data[..r.width * r.height] == crop;
      return Ok(g);
    }
  }

  /**
   * An interleaved plane: `colorComponents` samples per pixel, component `c` of pixel (x, y) at
   * byte `y * stride + x * components + indexOf(c)` with `stride = width * components`.
   */
  class InterleavedPlane {
    const width: nat
    const height: nat
    const colorComponents: seq<string>
    const data: array<byte>
    const stride: nat

    ghost predicate Valid() {
      stride == width * |colorComponents| && width * height * |colorComponents| <= data.Length
    }

    ghost function View(): InterleavedImage
      reads data
    {
      InterleavedImage(width, height, colorComponents, data[..])
    }

    /** `new InterleavedPlane(width, height, components)`: a fresh buffer of exactly the size. */
    constructor (width: nat, height: nat, colorComponents: seq<string>)
      ensures this.width == width && this.height == height && this.colorComponents == colorComponents
      ensures fresh(data) && data.Length == width * height * |colorComponents| && Valid()
    {
      this.width := width;
      this.height := height;
      this.colorComponents := colorComponents;
      this.stride := width * |colorComponents|;
      data := new byte[width * height * |colorComponents|];
    }

    constructor Over(width: nat, height: nat, colorComponents: seq<string>, data: array<byte>)
      requires width * height * |colorComponents| <= data.Length
      ensures this.width == width && this.height == height && this.colorComponents == colorComponents
      ensures this.data == data && Valid()
    {
      this.width := width;
      this.height := height;
      this.colorComponents := colorComponents;
      this.stride := width * |colorComponents|;
      this.data := data;
    }

    /** `new InterleavedPlane(width, height, components, data)`: throws iff the buffer is too short. */
    static method Create(width: nat, height: nat, colorComponents: seq<string>, data: array<byte>)
      returns (r: Result<InterleavedPlane, Error>)
      ensures r.Ok? <==> width * height * |colorComponents| <= data.Length
      ensures r.Ok? ==> r.value.width == width && r.value.height == height && r.value.data == data
      ensures r.Ok? ==> r.value.colorComponents == colorComponents && r.value.stride == width * |colorComponents|
      ensures r.Err? ==> r.error == InvalidBufferSize
    {
      if width * height * |colorComponents| > data.Length {
        return Err(InvalidBufferSize);
      }
      var p := new InterleavedPlane.Over(width, height, colorComponents, data);
      return Ok(p);
    }

    /** `colorComponentIdx`: the declared position of the component, or an error naming it. */
    function ColorComponentIdx(colorComponent: string): (r: Result<nat, Error>)
      ensures r.Ok? <==> colorComponent in colorComponents
      ensures r.Ok? ==> r.value < |colorComponents| && colorComponents[r.value] == colorComponent
      ensures r.Ok? ==> forall k | 0 <= k < r.value :: colorComponents[k] != colorComponent
      ensures r.Err? ==> r.error == ComponentNotFound(colorComponent)
    {
      var idx := IndexOf(colorComponents, colorComponent);
      if idx == -1 then Err(ComponentNotFound(colorComponent))
      else
        assert forall k | 0 <= k < idx :: colorComponents[..idx][k] == colorComponents[k];
        Ok(idx)
    }

    /** `getPixel`: an unknown component throws; otherwise `readUInt8` at the interleaved offset. */
    function GetPixel(x: nat, y: nat, colorComponent: string): (r: Result<byte, Error>)
      reads data
      requires Valid()
      ensures colorComponent !in colorComponents ==> r == Err(ComponentNotFound(colorComponent))
      ensures x < width && y < height && colorComponent in colorComponents ==> r.Ok?
      ensures colorComponent in colorComponents ==>
        (r.Ok? <==> PixelOffset(x, y, stride, |colorComponents|, ColorComponentIdx(colorComponent).value) < data.Length)
      ensures r.Err? && colorComponent in colorComponents ==> r.error == OffsetOutOfRange
      ensures r.Ok? ==>
        var idx := ColorComponentIdx(colorComponent).value;
        PixelOffset(x, y, stride, |colorComponents|, idx) < data.Length &&
        r.value == data[PixelOffset(x, y, stride, |colorComponents|, idx)]
    {
      match ColorComponentIdx(colorComponent)
      case Err(e) => Err(e)
      case Ok(idx) =>
        PixelInside(x, y, width, height, |colorComponents|, idx);
        var offset := PixelOffset(x, y, stride, |colorComponents|, idx);
        if offset < data.Length then Ok(data[offset]) else Err(OffsetOutOfRange)
    }

    /** `putPixel`: component lookup, then `writeUint8` at the interleaved offset. */
    method PutPixel(x: nat, y: nat, colorComponent: string, pix: int) returns (o: Outcome<Error>)
      requires Valid()
      modifies data
      ensures colorComponent !in colorComponents ==> o == Fail(ComponentNotFound(colorComponent))
      ensures o.Pass? <==>
        colorComponent in colorComponents && 0 <= pix < 256 &&
        PixelOffset(x, y, stride, |colorComponents|, ColorComponentIdx(colorComponent).value) < data.Length
      ensures o.Pass? ==>
        var offset := PixelOffset(x, y, stride, |colorComponents|, ColorComponentIdx(colorComponent).value);
        data[..] == old(data[..])[offset := pix as byte] && GetPixel(x, y, colorComponent) == Ok(pix as byte)
      ensures o.Fail? ==> data[..] == old(data[..])
      ensures o.Fail? && colorComponent in colorComponents ==>
        o.error == if 0 <= pix < 256 then OffsetOutOfRange else ValueOutOfRange
      ensures x < width && y < height && colorComponent in colorComponents && 0 <= pix < 256 ==> o.Pass?
    {
      var idx := ColorComponentIdx(colorComponent);
      if idx.Err? {
        return Fail(idx.error);
      }
      if x < width && y < height {
        PixelInside(x, y, width, height, |colorComponents|, idx.value);
      }
      if pix < 0 || pix > 255 {
        return Fail(ValueOutOfRange);
      }
      var offset := PixelOffset(x, y, stride, |colorComponents|, idx.value);
      if offset >= data.Length {
        return Fail(OffsetOutOfRange);
      }
      data[offset] := pix as byte;
      return Pass;
    }

    function GetWidth(): (w: nat)
      ensures w == GetDimension().width
    {
      width
    }

    function GetHeight(): (h: nat)
      ensures h == GetDimension().height
    {
      height
    }

    function GetBounds(): (r: Rectangle)
      ensures r.x == 0 && r.y == 0 && r.width == width && r.height == height
    {
      Rectangle(0, 0, width, height)
    }

    function GetDimension(): (d: Dimension)
      ensures d.width == GetBounds().width && d.height == GetBounds().height
    {
      Dimension(width, height)
    }

    /**
     * `getSubimage` for interleaved planes: like `Gray.GetSubimage` with every size multiplied by
     * the number of components; the result keeps the component list.
     */
    method GetSubimage(r: Rectangle, dest: Option<array<byte>>) returns (res: Result<InterleavedPlane, Error>)
      requires Valid()
      requires dest.Some? ==> dest.value != data
      modifies if dest.Some? then {dest.value} else {}
      ensures data[..] == old(data[..])
      ensures res.Ok? <==>
        (dest.None? || r.width * r.height * |colorComponents| <= dest.value.Length) &&
        r.x + r.width <= width && r.y + r.height <= height
      ensures res.Err? ==>
        res.error == if dest.Some? && dest.value.Length < r.width * r.height * |colorComponents| then CapacityTooSmall
                     else SubimageOutOfBounds
      ensures res.Err? && dest.Some? ==> dest.value[..] == old(dest.value[..])
      ensures res.Ok? ==>
        var g := res.value;
        var comps := |colorComponents|;
        var need := r.width * r.height * comps;
        g != this && g.Valid() && g.width == r.width && g.height == r.height &&
        g.colorComponents == colorComponents &&
        (dest.Some? ==> g.data == dest.value) && (dest.None? ==> fresh(g.data)) &&
        r.x * comps + r.width * comps <= stride && (r.y + r.height) * stride <= data.Length &&
        g.data[..need] == CropRows(data[..], stride, r.x * comps, r.y, r.width * comps, r.height) &&
        (dest.Some? ==> g.data[need..] == old(dest.value[need..]))
    {
      var comps := |colorComponents|;
      var need := r.width * r.height * comps;
      var buf: array<byte>;
      if dest.Some? {
        buf := dest.value;
      } else {
        buf := new byte[need];
      }
      if buf.Length < need {
        return Err(CapacityTooSmall);
      }
      if r.x + r.width > width || r.y + r.height > height {
        return Err(SubimageOutOfBounds);
      }
      var rowLen := r.width * comps;
      CropFits(r, width, height, comps, data.Length);
      CopyRows(data, stride, r.x * comps, r.y, rowLen, r.height, buf);
      ghost var crop := buf[..need];
      assert crop == CropRows(data[..], stride, r.x * comps, r.y, rowLen, r.height);
      var g := new InterleavedPlane.Over(r.width, r.height, colorComponents, buf);
      assert g.data[..need] == crop;
      return Ok(g);
    }
  }

  /** The byte geometry of an in-bounds rectangle of an interleaved plane. */
  lemma CropFits(r: Rectangle, width: nat, height: nat, comps: nat, length: nat)
    requires r.x + r.width <= width && r.y + r.height <= height
    requires width * height * comps <= length
    ensures r.x * comps + r.width * comps <= width * comps
    ensures (r.y + r.height) * (width * comps) <= length
    ensures r.width * r.height * comps == r.height * (r.width * comps)
  {
    assert r.x * comps + r.width * comps == (r.x + r.width) * comps;
    MulMonotone(r.x + r.width, width, comps);
    MulMonotone(r.y + r.height, height, width * comps);
    assert height * (width * comps) == width * height * comps;
  }

  /** Full-bounds crop of a plane's buffer: the first `width * height` bytes, unchanged. */
  lemma FullBoundsCropIsCopy(data: seq<byte>, width: nat, height: nat)
    requires width * height <= |data|
    ensures CropRows(data, width, 0, 0, width, height) == data[..width * height]
  {
    assert height * width == width * height;
    CropRowsWhole(data, width, height);
  }

  /** `FrameHeader`: frame geometry and the 0-based frame number `fn`. */
  datatype FrameHeader = FrameHeader(width: nat, height: nat, fn: nat)

  datatype YuvFrame = YuvFrame(header: FrameHeader, y: GrayImage, u: GrayImage, v: GrayImage)

  datatype RgbFrame = RgbFrame(header: FrameHeader, r: GrayImage, g: GrayImage, b: GrayImage)

  datatype InterleavedRgbFrame = InterleavedRgbFrame(header: FrameHeader, rgb: InterleavedImage)

  /** Not declared in src/frame.ts although src/color.ts imports it: one `rgba` plane. */
  datatype InterleavedRgbaFrame = InterleavedRgbaFrame(header: FrameHeader, rgba: InterleavedImage)
}
