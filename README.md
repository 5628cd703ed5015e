# yuv-rx, modelled in Dafny

yuv-rx reads a YUV4MPEG2 (Y4M) byte stream and turns it into decoded frames:

- It parses the stream header line: `YUV4MPEG2 W.. H.. F..:.. I. A..:.. C... X...`.
- It cuts the stream into `FRAME` lines and fixed-size frame bodies. Each body is split into one luma plane and two chroma planes.

It can also:

- convert a 4:2:0 frame to planar RGB, interleaved RGB or interleaved RGBA;
- resample a frame bilinearly to a new width;
- write frames back as a Y4M stream: a header line once, then one `FRAME\n` record per frame.

The project models that core, one module per source file:

| module | file | models |
|---|---|---|
| `Wrappers` | `wrappers.dfy` | `Option`, `Result`, and `Outcome` (pass or fail) |
| `Text` | `text.dfy` | the JavaScript string primitives the core relies on: `parseInt` on decimal digits, number printing, `indexOf`, `split`/`join`, ASCII encoding of bytes |
| `Frame` | `frame.dfy` | `parseRational`; the pixel planes `Gray` and `InterleavedPlane` as classes over a byte `array` (constructor size check, pixel access, sub-image copy); the frame shapes as values |
| `Y4M` | `y4m.dfy` | the `Y4MHeader` record: its plane geometry, `fromString` (a loop over the tokens) and `toString` |
| `Parser` | `parser.dfy` | the streaming demultiplexer: `nextChunk`, `nextState` and `parseFrame`. The `next` and `complete` handlers become methods of `YuvParser`, a class holding the mutable `state`, `buffer`, `header`, `frameHeader` and `fn` |
| `Color` | `color.dfy` | `clip`, `yuvToRgb` writing into byte arrays, the `yuv420pToRgb` traversal, and the three conversions |
| `Operators` | `operators.dfy` | `scaleBilinear` and the nested resampling loop `scaleGrayBilinear`, in exact real arithmetic |
| `Writer` | `writer.dfy` | `y4mHeader`, `frameToBuffer`, and the header-once and frame-count bookkeeping of `write` |

JavaScript numbers that can be `NaN` or unset are modelled as `Text.Num`, which is `Int(value)`, `NaN` or `Undefined`. A header without a `W` or `H` tag keeps `width`/`height` `undefined`. Every size computed from it is `NaN`, but `toString` prints it as `undefined`, and reading that text back gives `NaN`.

A `throw` is modelled as an `Err`/`Fail` value naming the error.

The main results:

- The parser's output does not depend on how the input is split into chunks (`Parser.ChunkBoundaryInvariance`).
- The "frame size should be known by now" error can never be raised (`Parser.FrameSizeAlwaysKnown`).
- Frames are numbered `0, 1, 2, …` (`Parser.DrainNumbering`).
- Writing frames with `Writer` and parsing the bytes back with `Parser` yields the same planes (`Writer.ParseWritten`).
- The header printed by `toString` parses back to the same geometry and rates (`Y4M.HeaderRoundTrip`).
- The 4:2:0 traversal converts every pixel exactly once, with the chroma sample of its 2x2 block (`Color.Yuv420pToRgb`, `Color.ChromaIndexOf`).
- Resampled pixels are convex blends in `[0, 255]`.

## Model

| member | source | states |
|---|---|---|
| Text.ParseInt | src/y4m.ts:108-111 | `parseInt` gives an integer exactly when its argument is a non-empty string of decimal digits; that integer is non-negative |
| Text.ParseIntOfNumToString | src/y4m.ts:146 | a number printed in a template literal parses back to itself with `parseInt` |
| Text.DecimalOfNatToString | src/y4m.ts:146 | the decimal digits printed for `n` have value `n` |
| Text.IndexOf | src/parser.ts:51 | `indexOf` returns the first position holding the element, and `-1` exactly when the element is absent |
| Text.Split | src/frame.ts:4 | `split` gives one more part than there are separators; no part contains the separator; joining the parts restores the string |
| Text.SplitJoin | src/y4m.ts:101 | splitting a join of separator-free parts gives the parts back |
| Text.AsciiRoundTrip | src/parser.ts:106 | decoding the ASCII bytes of an ASCII string gives the string back |
| Text.NumToString | src/y4m.ts:146 | a template literal prints a non-negative number as decimal digits, a negative one as `-` and digits, and `NaN`/`undefined` as words that do not start with a digit |
| Text.AsciiEncode | src/writer.ts:35 | `Buffer.from(text, 'ascii')` has one byte per character, equal to the character's code for 7-bit characters |
| Text.AsciiDecode | src/parser.ts:109 | `toString('ascii')` has one 7-bit character per byte, equal to the byte when it is below 128 |
| Frame.TryParseRational | src/frame.ts:3-13 | gives a rational exactly when the string has exactly one separator, with `parseInt` of the text before and after it, and `null` otherwise |
| Frame.ParseRational | src/frame.ts:3-17 | succeeds exactly when the string has exactly one `:`; the result is `parseInt` of the two sides, with a zero or `NaN` denominator accepted; otherwise it throws naming the string, because the fallback retries the same separator |
| Frame.CropRowsAt | src/frame.ts:89-93 | byte `i * rowLen + j` of a row-by-row crop is source byte `(y0 + i) * stride + x0 + j` |
| Frame.CropRowsWhole | src/frame.ts:89-93 | cropping whole rows from the origin is the buffer's prefix |
| Frame.CopyRows | src/frame.ts:89-93 | the copy loop with a running offset fills the first `rows * rowLen` bytes of `dest` with the crop and leaves the rest of `dest` alone |
| Frame.FillRow | src/frame.ts:91 | `dest.fill(subarray, start, end)` over a range as long as the subarray copies the subarray there and changes nothing else |
| Frame.Gray.constructor | src/frame.ts:45-52 | with no buffer, a fresh buffer of exactly `width * height` bytes is allocated, and the plane is valid |
| Frame.Gray.Over | src/frame.ts:45-52 | over a buffer that fits `width * height`, the plane has those dimensions over that same buffer and is valid |
| Frame.Gray.Create | src/frame.ts:45-52 | with a buffer, succeeds exactly when `width * height` fits in it, over that same buffer; otherwise throws `InvalidBufferSize` |
| Frame.Gray.GetPixel | src/frame.ts:54-56 | reads byte `y * width + x`; succeeds exactly when that offset is inside the buffer, so always for a pixel of the plane |
| Frame.Gray.PutPixel | src/frame.ts:58-60 | succeeds exactly when `0 <= pix < 256` and the offset is inside the buffer, the value being checked first; only byte `y * width + x` changes, and `GetPixel` then returns `pix`; on failure nothing changes |
| Frame.Gray.GetWidth | src/frame.ts:62-64 | the width agrees with `GetDimension` |
| Frame.Gray.GetHeight | src/frame.ts:66-68 | the height agrees with `GetDimension` |
| Frame.Gray.GetBounds | src/frame.ts:70-72 | the bounds are `{0, 0, width, height}` |
| Frame.Gray.GetDimension | src/frame.ts:74-76 | the dimension is `{width, height}`, the same as the bounds |
| Frame.Gray.GetSubimage | src/frame.ts:78-96 | throws `CapacityTooSmall` when `dest` is shorter than `r.width * r.height`, checked first, else `SubimageOutOfBounds` when the rectangle leaves the plane; on success it is a new plane `r.width x r.height` whose pixel `(j, i)` is source pixel `(r.x + j, r.y + i)`, over `dest` (the tail kept) or a fresh buffer; the source is never changed |
| Frame.InterleavedPlane.constructor | src/frame.ts:106-115 | with no buffer, a fresh buffer of exactly `width * height * n` bytes, stride `width * n` |
| Frame.InterleavedPlane.Over | src/frame.ts:106-115 | over a buffer that fits `width * height * n`, the plane has those dimensions and components over that same buffer and is valid |
| Frame.InterleavedPlane.Create | src/frame.ts:106-115 | with a buffer, succeeds exactly when `width * height * n` fits in it; the stride is `width * n` |
| Frame.InterleavedPlane.ColorComponentIdx | src/frame.ts:117-124 | the first position of the component name, or `ComponentNotFound` exactly when it is absent |
| Frame.InterleavedPlane.GetPixel | src/frame.ts:126-129 | throws `ComponentNotFound` for an unknown component; for a known one it succeeds exactly when byte `y * stride + x * n + idx` is inside the buffer and reads it, and otherwise throws the range error; always inside for a pixel of the plane |
| Frame.InterleavedPlane.PutPixel | src/frame.ts:131-134 | succeeds exactly when the component exists, `0 <= pix < 256` and byte `y * stride + x * n + idx` is in the buffer; only that byte changes and `GetPixel` then returns `pix`; an unknown component fails with `ComponentNotFound`, a value outside `[0, 255]` with `ValueOutOfRange` (checked before the offset, as `writeUint8` does), otherwise `OffsetOutOfRange`, and a failure changes nothing |
| Frame.InterleavedPlane.GetWidth | src/frame.ts:136-138 | the width agrees with `GetDimension` |
| Frame.InterleavedPlane.GetHeight | src/frame.ts:140-142 | the height agrees with `GetDimension` |
| Frame.InterleavedPlane.GetBounds | src/frame.ts:144-146 | the bounds are `{0, 0, width, height}` |
| Frame.InterleavedPlane.GetDimension | src/frame.ts:148-150 | the dimension is `{width, height}` |
| Frame.InterleavedPlane.GetSubimage | src/frame.ts:152-171 | the same checks with the capacity times the component count; on success the rows of `r.width * n` bytes starting at `r.y * stride + r.x * n` are copied, and the components are kept |
| Frame.FullBoundsCropIsCopy | src/frame.ts:79-80 | a crop to the full bounds is a copy of the plane, which is what the never-firing identity shortcut would have returned |
| Y4M.InterlacingFromChar | src/y4m.ts:5-17 | `t`, `b` and `m` give TopFieldFirst, BottomFieldFirst and Mixed, each exactly for its letter; anything else gives Progressive |
| Y4M.CeilHalf | src/y4m.ts:70 | `Math.ceil(a / 2)`: `a <= 2r <= a + 1`; `NaN` stays `NaN` |
| Y4M.Y4MHeader.ChromaWidth | src/y4m.ts:66-72 | the full width for `C444` and `C422`, half the width rounded up otherwise |
| Y4M.Y4MHeader.ChromaHeight | src/y4m.ts:74-80 | the full height for `C444` only, half the height rounded up otherwise, so `C422` has half-height chroma |
| Y4M.ChromaGeometry | src/y4m.ts:82-92 | the chroma size is `w*h` for `C444`, `w*ceil(h/2)` for `C422` and `ceil(w/2)*ceil(h/2)` for every other colorspace; the frame size is luma plus twice the chroma |
| Y4M.KnownSizeGeometry | src/y4m.ts:82-92 | with known dimensions every plane size is a non-negative integer, and the frame size is `lumaSize + 2 * chromaSize` |
| Y4M.FrameSizeUnsigned | src/y4m.ts:90-92 | the frame size is an integer exactly when both dimensions are known, and `NaN` otherwise |
| Y4M.UnknownSizeIsNaN | src/y4m.ts:82-92 | a width or height that is unset or not a number makes the chroma, luma and frame sizes `NaN` |
| Y4M.FrameSize16x16 | src/tests/reader.test.ts:16 | a 16x16 4:2:0 frame is 384 bytes |
| Y4M.Y4MHeader.ToString | src/y4m.ts:145-147 | printing succeeds exactly when the frame rate is set (otherwise reading its numerator throws); the text starts with `YUV4MPEG2 ` and ends with `XYSCSS=420MPEG2`, with no line feed |
| Y4M.Y4MHeader.Tokens | src/y4m.ts:146 | the printed header has seven tags: `W` and `H` followed by the printed width and height (`undefined` or `NaN` included), then `F` with the printed numerator and denominator of the rate joined by `:`, `Ip`, `A` with the aspect ratio printed the same way, the colorspace token as stored, and `XYSCSS=420MPEG2` |
| Y4M.LeadingDigits | src/y4m.ts:94-95 | the greedy `\d+` of the `TS=`/`VMTS=` patterns: a digits-only prefix of what follows, followed by the end of the text or a non-digit |
| Y4M.ApplyComment | src/y4m.ts:127-138 | an `X` token sets the comment to its value; when the whole line matches `VMTS=` digits it sets only the video media time scale to that number; otherwise, when it matches `TS=` digits, only the time scale; otherwise nothing else |
| Y4M.ApplyTokens | src/y4m.ts:103-140 | after any tokens that do not throw, width and height are unsigned integers or `NaN` |
| Y4M.ParseHeader | src/y4m.ts:97-143 | whatever `fromString` returns has unsigned-or-`NaN` width and height |
| Y4M.FromString | src/y4m.ts:97-143 | the token loop computes exactly `ParseHeader`: wrong magic throws, otherwise each space-separated token is applied in order to the defaults |
| Y4M.ApplyTokensErrSticks | src/y4m.ts:103-140 | once a token throws, later tokens do not matter |
| Y4M.ApplyTokensOk | src/y4m.ts:103-140 | the token loop throws exactly when some `F` or `A` value does not have exactly one colon |
| Y4M.ParseHeaderOk | src/y4m.ts:97-143 | `fromString` succeeds exactly when the first ten characters are `YUV4MPEG2 ` and every `F`/`A` value has one colon |
| Y4M.ParseHeaderWrongMagic | src/y4m.ts:98-100 | a line not starting with `YUV4MPEG2 ` throws the wrong-header error |
| Y4M.ParseHeaderNoTags | src/y4m.ts:59-64 | with no tags the header is the defaults: Progressive, aspect `1:1`, `C420mpeg2`, time scale `-1` |
| Y4M.NumberTokenApplies | src/y4m.ts:107-112 | a printed `W`/`H` token sets the width/height to the printed number, and a printed `undefined` to `NaN` |
| Y4M.RationalTokenApplies | src/y4m.ts:113-123 | an `F` token sets the frame rate and both time scales to its numerator; an `A` token sets the aspect ratio |
| Y4M.FixedTokensApply | src/y4m.ts:118-138 | `Ip` sets Progressive, a `C...` token is stored whole, `XYSCSS=420MPEG2` sets the comment |
| Y4M.PrintedLineSplits | src/y4m.ts:145-147 | the printed line starts with the magic and splits on spaces into exactly its seven tags |
| Y4M.PrintedTokens | src/y4m.ts:103-140 | applying the printed tags keeps width, height (an unset one comes back `NaN`), frame rate, aspect ratio and colorspace, with interlacing Progressive and comment `YSCSS=420MPEG2` |
| Y4M.HeaderRoundTrip | src/y4m.ts:97-147 | `fromString(toString(h))` keeps width, height, frame rate, aspect ratio and colorspace, resets interlacing to Progressive and the comment to `YSCSS=420MPEG2`; an unset width or height comes back as `NaN` |
| Y4M.Default | src/y4m.ts:56-64 | a fresh header has no frame size (`NaN`) and cannot be printed, because width, height and frame rate are unset |
| Y4M.Y4MHeader.LumaSize | src/y4m.ts:86-88 | `width * height` when both are numbers, `NaN` otherwise |
| Y4M.Y4MHeader.ChromaSize | src/y4m.ts:82-84 | the product of the chroma dimensions when width and height are numbers, `NaN` otherwise |
| Y4M.Y4MHeader.GetFrameSize | src/y4m.ts:90-92 | `lumaSize + 2 * chromaSize` when width and height are numbers, `NaN` otherwise |
| Y4M.FindTag | src/y4m.ts:129-135 | the regular-expression search: the leftmost position from `from` on where the tag is followed by a digit, or `-1` when there is none |
| Y4M.MatchNumber | src/y4m.ts:129-135 | `exec` then `parseInt` of the group: no match exactly when the tag is nowhere followed by a digit, otherwise the value of the whole digit run after the leftmost such occurrence |
| Y4M.ApplyToken | src/y4m.ts:104-138 | one `switch`: throws exactly for an `F`/`A` value without exactly one colon, naming it; `W`/`H` set the parsed number, `I` the interlacing of the next character, `C` the whole token, `X` the comment rule; an empty token or unknown key changes nothing |
| Y4M.ApplyFrameRate | src/y4m.ts:113-117 | succeeds exactly when the value has one colon, and then sets the frame rate and both time scales to the parsed numerator |
| Y4M.ApplyAspectRatio | src/y4m.ts:121-123 | succeeds exactly when the value has one colon, and then sets only the aspect ratio |
| Y4M.VmtsShadowsTs | src/y4m.ts:129-136 | since `TS=` matches inside `VMTS=`, a line with a `VMTS=` value also matches `TS=`, yet `timeScale` is left alone and the video media time scale takes the `VMTS=` value |
| Y4M.VmtsLinePosition | src/y4m.ts:95 | in `YUV4MPEG2 W16 XVMTS=90000` the leftmost `VMTS=` followed by a digit is at position 15 |
| Y4M.Digits90000 | src/y4m.ts:131 | `parseInt` of the whole digit run `90000` is 90000 |
| Y4M.VmtsLineMatch | src/y4m.ts:129-131 | in `YUV4MPEG2 W16 XVMTS=90000` the `VMTS=` search finds 90000 |
| Y4M.VmtsLine | src/y4m.ts:127-138 | the `X` token of that line sets the comment and the video media time scale to 90000 and keeps the time scale |
| Y4M.Rate25 | src/frame.ts:15-16 | `25:1` parses to the rational 25/1 |
| Y4M.RateOnlyLine | src/y4m.ts:97-143 | `YUV4MPEG2 F25:1` parses to the defaults with frame rate 25/1 and both time scales 25, width and height unset |
| Y4M.UnsetSizePrintsUndefined | src/y4m.ts:145-147 | unset width and height print as `Wundefined Hundefined`, and that line parses back with `NaN` width and height |
| Parser.NextState | src/parser.ts:62-71 | never returns to `reading header`; gives `reading frame` exactly after `reading frame header` |
| Parser.Prefix | src/parser.ts:52 | `subarray(0, n)` is a prefix, exactly the first `n` bytes when `n` is in range |
| Parser.NextChunk | src/parser.ts:47-60 | in a header state: the prefix through the first line feed, `null` exactly when there is none; in `reading frame`: the first `frameSize` bytes exactly when that many are buffered, `null` for a `NaN` size, and a throw exactly when the size is missing |
| Parser.ParseFrame | src/parser.ts:10-28 | throws exactly when the frame header does not start with `FRAME`; otherwise the planes are `[0, luma)`, `[luma, luma + chroma)` and the rest, with the header's luma and chroma dimensions, and the frame header is `{width, height, fn}` |
| Parser.InvFrameSize | src/parser.ts:102 | whenever the parser is in `reading frame` a header is known, so the frame size is present and is an integer exactly when width and height are known |
| Parser.Consume | src/parser.ts:104-119 | one token: only the header line and frame body can throw; a frame is emitted exactly in `reading frame`, numbered `fn`, and `fn` advances by one then |
| Parser.Initial | src/parser.ts:92-96 | the variables at subscription: `reading header`, an empty buffer, no header, `fn = 0`; the invariant holds and no token is buffered |
| Parser.Drain | src/parser.ts:102-120 | the `while` loop keeps the parser invariant: past the header a header with parser-produced dimensions is known, and in `reading frame` the frame header line too |
| Parser.Feed | src/parser.ts:98-120 | one `next` call keeps the invariant, never grows the buffer beyond what it held plus the data, never throws the frame-size error, and without an error leaves no complete token buffered |
| Parser.CutToken | src/parser.ts:102-119 | one loop iteration: stops exactly when `nextChunk` gives `null`; otherwise removes exactly the token from the front of the buffer and moves to `nextState`, or throws keeping state and header |
| Parser.DrainToken | src/parser.ts:102-120 | the loop's result after one token is that token's frames followed by the rest of the loop |
| Parser.CutTokenExtend | src/parser.ts:99-120 | bytes arriving later do not change a token already complete in the buffer |
| Parser.DrainNumbering | src/parser.ts:96 | the frames emitted by the loop are numbered consecutively from `fn`, and `fn` advances by their count |
| Parser.DrainShrinks | src/parser.ts:103 | the loop only ever removes bytes from the buffer |
| Parser.DrainStops | src/parser.ts:102 | the loop never throws the "frame size should be known" error, never re-enters `reading header`, and when it ends without an error no complete token is left |
| Parser.Finish | src/parser.ts:123-131 | `complete`: "Unparsed N bytes" exactly when the buffer is not empty, "finished while expecting frame data" exactly when it is empty in `reading frame`, success otherwise |
| Parser.NextChunkExtend | src/parser.ts:47-60 | a chunk found in a buffer is found unchanged when more bytes are appended |
| Parser.DrainExtend | src/parser.ts:99-120 | running the loop on a longer buffer runs it on the shorter one and keeps the extra bytes |
| Parser.ChunkInvariance | src/parser.ts:98-120 | feeding `a + b` at once gives what feeding `a` then `b` gives; if `a` throws, `a + b` throws the same error after the same frames |
| Parser.ChunkBoundaryInvariance | src/parser.ts:98-120 | frames and the first error depend only on the concatenation of the chunks, not on where the stream was split, and so does the final state when no chunk throws |
| Parser.FrameSizeAlwaysKnown | src/parser.ts:53-56 | the frame-size error is unreachable from any reachable state, and the parser invariant holds after every feed |
| Parser.EmptyStream | src/parser.ts:123-131 | an empty stream emits no frames and completes |
| Parser.ResumesToken | src/parser.ts:102-120 | the loop invariant of `next`: after each token the frames so far followed by the rest of the loop give the whole drain |
| Parser.ResumesWait | src/parser.ts:102 | when no token is complete the loop ends with the frames gathered so far |
| Parser.ResumesThrown | src/parser.ts:104-119 | when a token throws the loop ends with that error after the frames gathered so far |
| Parser.YuvParser.constructor | src/parser.ts:92-96 | the parser starts in `reading header` with an empty buffer, no header and `fn = 0` |
| Parser.YuvParser.Next | src/parser.ts:98-121 | the `next` handler appends the data, runs the loop in place, and leaves state, buffer, header, frame header and `fn` as `Feed` describes, returning the frames emitted and the error thrown |
| Parser.YuvParser.Advance | src/parser.ts:102-103 | one loop test and buffer cut, as `CutToken` describes |
| Parser.YuvParser.Handle | src/parser.ts:104-119 | the `switch` on the state, as `Consume` describes |
| Parser.YuvParser.Complete | src/parser.ts:123-131 | the `complete` handler, as `Finish` describes |
| Color.Clip | src/color.ts:3-5 | the result lies in `[low, high]`, and is `n` itself when `n` already does |
| Color.ClipByte | src/color.ts:7-9 | the result is a byte: `n` when in `[0, 255]`, 0 below, 255 above |
| Color.Sample | src/color.ts:15-17 | indexing a plane gives its byte inside the buffer and nothing past its end |
| Color.YuvToRgb | src/color.ts:14-24 | the saturating formulas with `>> 8` as floor division by 256; a missing luma sample gives black and a missing chroma sample zeroes the channels it feeds, as `NaN` stored into a buffer does |
| Color.NeutralChromaIsGray | src/color.ts:15-23 | `U = V = 128` gives a gray pixel |
| Color.GrayMonotone | src/color.ts:15-23 | the gray level does not decrease as `Y` grows |
| Color.StudioRange | src/color.ts:15-23 | with neutral chroma, `Y <= 16` is black and `Y >= 235` is white |
| Color.BlackAndWhite | src/tests/color.test.ts:32-38 | `Y = 0` gives `(0, 0, 0)` and `Y = 255` gives `(255, 255, 255)` with neutral chroma |
| Color.YuvToRgbInto | src/color.ts:14-24 | writes the three converted channels at their offsets (later writes winning where offsets coincide), ignores writes past the end of a buffer, and changes no other byte |
| Color.Convert | src/color.ts:74-111 | one conversion call replaces exactly the stored pixel at `offLuma` of the target with the converted colour |
| Color.ChromaIndex | src/color.ts:28-60 | the chroma offset the traversal pairs with luma offset `p` of a `w`-wide frame: row `p / w`, column `p % w` use sample `(row / 2) * ceil(w/2) + column / 2` |
| Color.Pixel | src/color.ts:14-24 | the colour converted for luma offset `p`: black past the end of the luma plane, and a chroma offset past the end of `u` or `v` zeroes the channels it feeds |
| Color.Store | src/color.ts:21-23 | a store into a Buffer changes exactly byte `i` to `v` when `i` is inside, and nothing when it is past the end |
| Color.ChromaIndexOf | src/color.ts:28-60 | luma pixel `(x, y)` is converted with chroma index `(y/2) * ceil(w/2) + x/2` |
| Color.ChromaIndexInside | src/color.ts:28-60 | that chroma index stays below `ceil(h/2) * ceil(w/2)` |
| Color.SameChromaIffSameBlock | src/color.ts:28-60 | two pixels share a chroma sample exactly when they lie in the same 2x2 block |
| Color.PairChroma | src/color.ts:39-44 | the odd last column of a row pair uses the pair's next chroma sample for both rows |
| Color.BlockChroma | src/color.ts:31-38 | the four pixels of a 2x2 block use the same chroma sample |
| Color.Coordinates | src/color.ts:29 | every luma offset below `w * h` is `y * stride + x` for a pixel of the frame |
| Color.PairColumns | src/color.ts:31-38 | the inner loop over column pairs converts offsets `2k, 2k+1` of both rows with chroma `offChroma + k` |
| Color.RowPair | src/color.ts:31-46 | one row pair (even columns then the odd last column) converts all `2w` offsets of its two rows and advances chroma by `ceil(w/2)` |
| Color.RowColumns | src/color.ts:49-54 | the last odd row's column pairs |
| Color.LastRow | src/color.ts:48-60 | the last odd row converts its `w` offsets and advances chroma by `ceil(w/2)` |
| Color.Yuv420pToRgb | src/color.ts:26-61 | the traversal makes `w*h` calls, each with the chroma index of its offset; every offset in `[0, w*h)` is converted, none twice; the final chroma offset is `ceil(h/2) * ceil(w/2)` |
| Color.EachOffsetOnce | src/color.ts:26-61 | `n` calls that convert all `n` offsets convert no offset twice |
| Color.ReplayConverts | src/color.ts:74-111 | after running the calls, each target pixel converted by some call holds the converted colour of that pixel, and the others are unchanged |
| Color.ConvertAll | src/color.ts:74-111 | the callback run once per call changes the target as the replayed calls describe |
| Color.ConvertFrame | src/color.ts:26-61 | traversal and callback together store every pixel's converted colour |
| Color.FullPlanes | src/color.ts:15-17 | with full-size planes no sample is missing, so a pixel is the formula on its bytes |
| Color.ToRgb | src/color.ts:63-79 | the RGB frame reuses the header and has three `w x h` planes; pixel `p` of the planes is the converted colour of luma pixel `p` |
| Color.ToRgbInterleaved | src/color.ts:81-95 | one `w x h` plane with components `r, g, b`; pixel `p`'s channels are bytes `3p .. 3p+2` |
| Color.ToRgbaInterleaved | src/color.ts:97-113 | one `w x h` plane with components `r, g, b, a`; pixel `p`'s channels are bytes `4p .. 4p+2` and byte `4p+3` is 255 |
| Operators.Round | src/operators.ts:18 | `Math.round`: the nearest integer, halves rounding up |
| Operators.EvenHeight | src/operators.ts:18 | `round(H*w/W) & ~1` is even and within `[-1.5, +0.5]` of `H*w/W`; a zero source width gives 0 |
| Operators.EvenHeightExample | src/tests/operators.test.ts:17-18 | a 144x80 frame scaled to width 72 gets height 40 |
| Operators.ReadUInt8 | src/operators.ts:51-54 | reads succeed exactly inside the buffer |
| Operators.Position | src/operators.ts:40-47 | `ratio * j`: 0 for the first sample, never negative for a non-empty source, and below `W - 1` for a source at least 2 wide |
| Operators.Blend | src/operators.ts:56-57 | the floored bilinear blend: the top-left byte at a zero offset, and the common byte when all four are equal |
| Operators.TargetHeight | src/operators.ts:18 | `h ?? round(H*w/W) & ~1`: the given height, or an even height within `[-1.5, +0.5]` of `H*w/W`, 0 for a zero source width |
| Operators.PositionInside | src/operators.ts:40-45 | with a source at least 2 wide, `floor(j * (W-1)/w)` stays in `[0, W-2]` |
| Operators.WeightsConvex | src/operators.ts:46-57 | the four bilinear weights are non-negative and sum to 1 |
| Operators.BlendInRange | src/operators.ts:57 | the floored blend of four bytes lies in `[0, 255]` |
| Operators.ScaledPixel | src/operators.ts:44-57 | one destination pixel: throws exactly when the furthest neighbour read leaves the source, otherwise a value in `[0, 255]` |
| Operators.LargeSourceReadable | src/operators.ts:40-54 | a source of at least 2x2 pixels is never read outside |
| Operators.OneRowSourceThrows | src/operators.ts:53-54 | a one-row source always throws, reading the row below |
| Operators.WriteBelowRows | src/operators.ts:59 | writing a pixel of row `i` keeps the finished rows above it |
| Operators.ScaleRow | src/operators.ts:43-60 | the inner loop succeeds exactly when every pixel of the row can be read, and then fills the row |
| Operators.ScaleGray | src/operators.ts:37-63 | succeeds exactly when every destination pixel can be read; the result is `w x h` and pixel `(j, i)` is the blend for `(i, j)`; the source is a value and is not changed |
| Operators.ScaleBilinear | src/operators.ts:13-35 | the same width returns the frame unchanged whatever `h`; otherwise the header is `{w, hh, fn}`, luma is resampled to `w x hh` and both chroma planes to `floor(w/2) x floor(hh/2)`, throwing exactly when one of them reads outside |
| Writer.HeaderText | src/writer.ts:35 | the header text starts with `YUV4MPEG2 ` and ends with `XYSCSS=420MPEG2` |
| Writer.Stream | src/writer.ts:74-82 | nothing for no frames; otherwise the first frame's header followed by all the records |
| Writer.Y4mHeader | src/writer.ts:34-36 | the header is the ASCII bytes of one line |
| Writer.FrameToBuffer | src/writer.ts:38-40 | a record is `FRAME\n` followed by the `y`, `u` and `v` bytes, 6 bytes longer than the three planes together |
| Writer.HeaderTextPrints | src/writer.ts:35 | the header line is exactly what `Y4MHeader.toString` prints for `W`, `H`, `F ts:fd`, aspect `1:1` and `C420mpeg2` |
| Writer.HeaderBytes | src/writer.ts:35 | the header buffer is the ASCII text and one final line feed, and decodes back to the text |
| Writer.HeaderTextParses | src/writer.ts:35 | the header text parses with `fromString` to the frame's width and height, the rate, aspect `1:1` and `C420mpeg2` |
| Writer.HeaderLineCut | src/parser.ts:102-107 | a line that parses as a header, at the front of the buffer in `reading header`, is cut as one token, stored as the header, and moves the parser to `reading frame header` |
| Writer.HeaderParsesBack | src/writer.ts:35 | the header ends in its only line feed, and the line before it parses with `fromString` to width `w`, height `h`, frame rate `ts:fd`, aspect `1:1` and colorspace `C420mpeg2` |
| Writer.StreamSnoc | src/writer.ts:75-82 | one more frame appends its record, preceded by the header if it is the first frame |
| Writer.FrameSink.constructor | src/writer.ts:58-59 | nothing written, header not written, count 0 |
| Writer.FrameSink.Next | src/writer.ts:75-82 | the header is written before the first record only, with that frame's width and height; the record follows; the count grows by one |
| Writer.SinkStep | src/writer.ts:75-82 | the bytes written after each frame are the stream of the frames so far |
| Writer.Write | src/writer.ts:74-82 | over any frames the sink writes exactly the stream (one header, then the records) and counts the frames |
| Writer.DrainRecords | src/parser.ts:102-120 | the parser loop turns a run of 4:2:0 records into frames with the same planes, numbered on |
| Writer.DrainWritten | src/writer.ts:34-40 | the written stream parses, without an error and with nothing left over, into frames with the written planes, numbered from 0 |
| Writer.ParseWritten | src/writer.ts:74-82 | parsing what the writer writes, for frames of one 4:2:0 geometry, gives as many frames with the same planes and dimensions, no error, and completes |

## Left out

- `src/reader.ts`, `src/log-handler.ts` and `src/index.ts` are not part of this model: they spawn ffmpeg, route its log output and re-export names.
- The RxJS wiring (`Observable`, `subscribe`, `read`, `readCustom`) and the `verbose` console logging of the parser are left out. `next` and `complete` are methods of `YuvParser` that return the frames and the error.
- Parser.YuvParser.Next: how a thrown error travels through Rx is not modelled. `next` stops at the throw and keeps its variables as they were at that point; a later call resumes from there.
- In `src/writer.ts`, `ffmpegArgs`, `spawn`, the exit and stdin error handlers, option merging and `complete` are left out. The time scale and frame duration are natural numbers, and the written bytes are a sequence that `stdin` collects.
- Writer.ParseWritten: the round trip is stated for frames of one shared 4:2:0 geometry whose planes have the sizes the header implies. For other frames the parser would cut the stream differently.
- Text.ParseInt: the JavaScript leniency of `parseInt` (a sign, leading white space, trailing junk, other radices) is not modelled. Such strings give `NaN` here, where JavaScript may return a number.
- Text.ParseInt: header numbers are unbounded integers here, while JavaScript numbers are IEEE-754 doubles. `parseInt` rounds a digit string above 2^53 (`parseInt("9007199254740993")` is 9007199254740992) and gives `Infinity` past about 1.8e308. `Text.NumToString`, `Text.ParseIntOfNumToString` and `Y4M.HeaderRoundTrip` therefore match the source only below these bounds.
- Text.NumToString: a template literal prints a number at or above 1e21 in exponent form (`1e+21`), which `parseInt` reads back as 1. Here every integer prints as its full decimal digits, so `YUV4MPEG2 W1000000000000000000000 F25:1` keeps its width in the model but comes back with width 1 in the source.
- Text.ParseIntOfNumToString: holds for every integer here; in the source only for integers of magnitude below 2^53, by the two lines above.
- Y4M.HeaderRoundTrip: the width and height come back unchanged only below 2^53 in the source, as the `Text.ParseInt` line above says.
- Operators: `Math.round`, `Math.floor` and the ratios are exact real arithmetic, not IEEE-754 doubles. A pixel whose blend lies within rounding error of an integer may differ by one.
- Operators.EvenHeight: the 32-bit semantics of `& ~1` (wrap-around for heights at or above 2^31) are not modelled. The height is an unbounded natural number.
- Color.YuvToRgb: `>> 8` is modelled as floor division by 256. This is exact for the int32 values the formulas produce from bytes.
- Plane data are values inside frames, so the memory sharing of `subarray` is not captured. This covers `parseFrame` planes sharing the stream buffer and `data?.subarray()` in the plane constructors. Sharing is modelled only where the classes write in place.
- The contents of `Buffer.allocUnsafe` are unspecified: the fresh arrays of the constructors carry no promise about their bytes.
- The data holders `Y4MFrameHeader` and `Y4MFrame` are unused by the core and not modelled.
- Parser.ParseFrame: it requires that the data be exactly a frame of the header's known size. `nextChunk` guarantees this, as `Parser.CutToken` proves, and with a `NaN` size no frame is ever cut.
- Color.ConvertAll: the conversion callback of `yuv420pToRgb` is modelled as the list of `(offLuma, offChroma)` calls the traversal makes, replayed on the target arrays. This is equivalent because the traversal never reads what the callback writes.
- Operators.ScaleBilinear: the curried `scaleBilinear(w, h)` returning a function is modelled as one method taking the frame as well.
- Frame.Gray.GetSubimage: the identity shortcut `r == this.getBounds()` compares a fresh object by reference and never fires, so the model always copies (`Frame.FullBoundsCropIsCopy` shows the copy equals the plane).
- Frame.InterleavedPlane.GetSubimage: likewise, the identity shortcut never fires.
- The "frame size should be known by now" throw of `nextChunk` is modelled but unreachable (`Parser.FrameSizeAlwaysKnown`).
- Pixel coordinates and `pix` are integers. Fractional arguments to `readUInt8`/`writeUint8` are not modelled.
- Frame.Gray.GetPixel: coordinates are natural numbers. The source also accepts negative ones as long as the offset stays in the buffer, e.g. `getPixel(-1, 1)` reads byte `width - 1`. Every call in the core passes non-negative coordinates.
- Frame.Gray.PutPixel: coordinates are natural numbers, as for `GetPixel`; a negative `x` or `y` whose offset is inside the buffer writes there in the source.
- Frame.Gray.GetSubimage: the rectangle has natural coordinates, while a negative `r.x` or `r.y` passes the source's bounds check. `dest` must be a buffer other than the plane's own; the source also accepts `dest === this.data`, where the copy would overlap itself. No caller in the core passes either.
- Frame.InterleavedPlane.GetPixel: coordinates are natural numbers, as for `Frame.Gray.GetPixel`.
- Frame.InterleavedPlane.PutPixel: coordinates are natural numbers, as for `Frame.Gray.PutPixel`.
- Frame.InterleavedPlane.GetSubimage: natural rectangle coordinates and a `dest` other than the plane's own buffer, as for `Frame.Gray.GetSubimage`.
