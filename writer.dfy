/**
 * The byte-producing half of `YuvWriter` (src/writer.ts): the YUV4MPEG2 stream header line,
 * one `FRAME` record per frame, and the `next` handler of `write`, which puts the header in
 * front of the first record only and counts the frames. ffmpeg's stdin is the byte sequence the
 * handler has written so far.
 *
 * The partner of the writer is the parser of the `Parser` module: the header line parses back
 * to the dimensions and rate it was printed from, and a written stream of frames with 4:2:0
 * planes parses back to the same planes, numbered from 0.
 */
module Writer {
  import opened Wrappers
  import opened Text
  import opened Frame
  import opened Y4M
  import opened Parser

  /** The rate written when the options give none: 24 frames per second. */
  const DefaultTimescale: nat := 24
  const DefaultFrameDuration: nat := 1

  /**
   * The space-separated fields of `y4mHeader`: the first frame's size, the rate, progressive,
   * square pixels, 4:2:0.
   */
  function HeaderFields(fh: FrameHeader, timescale: nat, frameDuration: nat): seq<string> {
    ["W" + NatToString(fh.width), "H" + NatToString(fh.height),
     "F" + NatToString(timescale) + ":" + NatToString(frameDuration),
     "Ip", "A1:1", "C420mpeg2", "XYSCSS=420MPEG2"]
  }

  /** The text of `y4mHeader` up to its line feed. */
  function HeaderText(fh: FrameHeader, timescale: nat, frameDuration: nat): (s: string)
    ensures |s| >= |Magic| + |Comment420| && s[..|Magic|] == Magic
    ensures s[|s| - |Comment420|..] == Comment420
  {
    JoinEndsWithLast(HeaderFields(fh, timescale, frameDuration), ' ');
    "YUV4MPEG2 " + Join(HeaderFields(fh, timescale, frameDuration), ' ')
  }

  function HeaderLine(fh: FrameHeader, timescale: nat, frameDuration: nat): (s: string)
    ensures |s| > 0 && s[|s| - 1] == '\n'
  {
    HeaderText(fh, timescale, frameDuration) + "\n"
  }

  /** `y4mHeader`: the header line in Node's `'ascii'` encoding. */
  function Y4mHeader(fh: FrameHeader, timescale: nat, frameDuration: nat): (b: seq<byte>)
    ensures |b| == |HeaderLine(fh, timescale, frameDuration)|
  {
    AsciiEncode(HeaderLine(fh, timescale, frameDuration))
  }

  const FrameTag: string := "FRAME\n"

  /** `frameToBuffer`: the `FRAME` line, then the Y, U and V planes back to back. */
  function FrameToBuffer(frame: YuvFrame): (b: seq<byte>)
    ensures |b| == 6 + |frame.y.data| + |frame.u.data| + |frame.v.data|
    ensures b[..6] == AsciiEncode(FrameTag)
    ensures b[6..] == frame.y.data + frame.u.data + frame.v.data
  {
    AsciiEncode(FrameTag) + (frame.y.data + frame.u.data + frame.v.data)
  }

  /** The records of `frames`, in order. */
  function Records(frames: seq<YuvFrame>): seq<byte> {
    if frames == [] then [] else FrameToBuffer(frames[0]) + Records(frames[1..])
  }

  /**
   * Everything `write` sends to ffmpeg for `frames`: nothing for no frames, otherwise the header
   * of the first frame followed by every record.
   */
  function Stream(frames: seq<YuvFrame>, timescale: nat, frameDuration: nat): (s: seq<byte>)
    ensures s == [] <==> frames == []
    ensures frames != [] ==>
      var header := Y4mHeader(frames[0].header, timescale, frameDuration);
      |s| > |header| && s[..|header|] == header && s[|header|..] == Records(frames)
  {
    if frames == [] then [] else Y4mHeader(frames[0].header, timescale, frameDuration) + Records(frames)
  }

  /** The header a parser reads back: the printed fields over the parser's defaults. */
  function StreamHeader(fh: FrameHeader, timescale: nat, frameDuration: nat): Y4MHeader {
    Default().(width := Int(fh.width), height := Int(fh.height),
               frameRate := Some(Rational(Int(timescale), Int(frameDuration))))
  }

  lemma {:induction false} RecordsSnoc(frames: seq<YuvFrame>, frame: YuvFrame)
    ensures Records(frames + [frame]) == Records(frames) + FrameToBuffer(frame)
  {
    if frames == [] {
      assert [] + [frame] == [frame];
      assert [frame][1..] == [];
    } else {
      assert (frames + [frame])[1..] == frames[1..] + [frame];
      RecordsSnoc(frames[1..], frame);
    }
  }

  /** A stream gains the new record at its end, and the header in front when it was empty. */
  lemma StreamSnoc(frames: seq<YuvFrame>, frame: YuvFrame, timescale: nat, frameDuration: nat)
    ensures Stream(frames + [frame], timescale, frameDuration) ==
      Stream(frames, timescale, frameDuration) +
      (if frames == [] then Y4mHeader(frame.header, timescale, frameDuration) else []) +
      FrameToBuffer(frame)
  {
    RecordsSnoc(frames, frame);
    if frames == [] {
      assert frames + [frame] == [frame];
      assert Records([]) == [];
    } else {
      assert (frames + [frame])[0] == frames[0];
    }
  }

  /**
   * The variables of `write`'s subscription: the flag and the counter of the `next` handler, and
   * the bytes written to ffmpeg's stdin.
   */
  class FrameSink {
    const timescale: nat
    const frameDuration: nat
    var headerWritten: bool
    var framesWritten: nat
    var stdin: seq<byte>
    ghost var frames: seq<YuvFrame>

    /** The flag is set once a frame arrived, the counter counts them, stdin holds their stream. */
    ghost predicate Valid()
      reads this
    {
      headerWritten == (frames != []) &&
      framesWritten == |frames| &&
      stdin == Stream(frames, timescale, frameDuration)
    }

    constructor(timescale: nat, frameDuration: nat)
      ensures Valid() && frames == []
      ensures this.timescale == timescale && this.frameDuration == frameDuration
    {
      this.timescale := timescale;
      this.frameDuration := frameDuration;
      headerWritten := false;
      framesWritten := 0;
      stdin := [];
      frames := [];
    }

    /** The `next` handler: the header before the first record only, then the record, then count. */
    method Next(frame: YuvFrame)
      requires Valid()
      modifies this
      ensures Valid() && frames == old(frames) + [frame]
      ensures headerWritten && framesWritten == old(framesWritten) + 1
      ensures stdin == old(stdin) +
        (if old(headerWritten) then [] else Y4mHeader(frame.header, timescale, frameDuration)) +
        FrameToBuffer(frame)
    {
      SinkStep(frames, frame, timescale, frameDuration, stdin);
      if !headerWritten {
        stdin := stdin + Y4mHeader(frame.header, timescale, frameDuration);
        headerWritten := true;
      }
      stdin := stdin + FrameToBuffer(frame);
      framesWritten := framesWritten + 1;
      frames := frames + [frame];
    }
  }

  /** What the `next` handler appends to the stream of the frames so far keeps it the stream of all of them. */
  lemma SinkStep(frames: seq<YuvFrame>, frame: YuvFrame, timescale: nat, frameDuration: nat, stdin: seq<byte>)
    requires stdin == Stream(frames, timescale, frameDuration)
    ensures Stream(frames + [frame], timescale, frameDuration) ==
      (if frames != [] then stdin else stdin + Y4mHeader(frame.header, timescale, frameDuration)) + FrameToBuffer(frame)
  {
    StreamSnoc(frames, frame, timescale, frameDuration);
    if frames != [] {
      assert stdin + [] == stdin;
    }
  }

  /**
   * `write` without ffmpeg: feed every frame to the `next` handler and answer the number of
   * frames written, together with what went to stdin.
   */
  method Write(frames: seq<YuvFrame>, timescale: nat, frameDuration: nat) returns (stdin: seq<byte>, framesWritten: nat)
    ensures framesWritten == |frames|
    ensures stdin == Stream(frames, timescale, frameDuration)
  {
    var sink := new FrameSink(timescale, frameDuration);
    for i := 0 to |frames|
      invariant sink.Valid() && sink.frames == frames[..i]
      invariant sink.timescale == timescale && sink.frameDuration == frameDuration
    {
      assert frames[..i + 1] == frames[..i] + [frames[i]];
      sink.Next(frames[i]);
    }
    assert frames[..|frames|] == frames;
    return sink.stdin, sink.framesWritten;
  }

  /** 7-bit text without a line feed. */
  predicate Plain(s: string) {
    forall i | 0 <= i < |s| :: s[i] as int < 128 && s[i] != '\n'
  }

  lemma PlainAppend(a: string, b: string)
    requires Plain(a) && Plain(b)
    ensures Plain(a + b)
  {
    forall i | 0 <= i < |a + b| ensures (a + b)[i] as int < 128 && (a + b)[i] != '\n' {
      if i >= |a| {
        assert (a + b)[i] == b[i - |a|];
      }
    }
  }

  lemma {:induction false} PlainJoin(parts: seq<string>, sep: char)
    requires |parts| > 0 && forall k | 0 <= k < |parts| :: Plain(parts[k])
    requires sep as int < 128 && sep != '\n'
    ensures Plain(Join(parts, sep))
  {
    if |parts| > 1 {
      PlainJoin(parts[1..], sep);
      PlainAppend(parts[0], [sep]);
      PlainAppend(parts[0] + [sep], Join(parts[1..], sep));
    }
  }

  lemma HeaderTextPlain(fh: FrameHeader, timescale: nat, frameDuration: nat)
    ensures Plain(HeaderText(fh, timescale, frameDuration))
  {
    var fields := HeaderFields(fh, timescale, frameDuration);
    PlainAppend("F" + NatToString(timescale), ":");
    PlainAppend("F" + NatToString(timescale) + ":", NatToString(frameDuration));
    forall k | 0 <= k < |fields| ensures Plain(fields[k]) {
      if k == 0 { PlainAppend("W", NatToString(fh.width)); }
      if k == 1 { PlainAppend("H", NatToString(fh.height)); }
      if k == 2 { PlainAppend("F", NatToString(timescale)); }
    }
    PlainJoin(fields, ' ');
    PlainAppend("YUV4MPEG2 ", Join(fields, ' '));
  }

  /** The header text is what `Y4MHeader.toString` prints for the header it describes. */
  lemma HeaderTextPrints(fh: FrameHeader, timescale: nat, frameDuration: nat)
    ensures StreamHeader(fh, timescale, frameDuration).ToString() == Some(HeaderText(fh, timescale, frameDuration))
  {
    var one := NumToString(Int(1));
    assert one == "1";
    assert "A" + one + ":" + one == "A1:1";
  }

  /**
   * The header buffer is one line: it ends in its only line feed, and the text before it parses
   * back to the first frame's width and height, the rate `timescale:frameDuration`, square
   * pixels and the `C420mpeg2` colorspace.
   */
  lemma HeaderParsesBack(fh: FrameHeader, timescale: nat, frameDuration: nat)
    ensures var b := Y4mHeader(fh, timescale, frameDuration);
      |b| > 0 && b[|b| - 1] == LineFeed && LineFeed !in b[..|b| - 1]
    ensures var b := Y4mHeader(fh, timescale, frameDuration);
      var r := ParseHeader(AsciiDecode(b[..|b| - 1]));
      r.Ok? && r.value.width == Int(fh.width) && r.value.height == Int(fh.height) &&
      r.value.frameRate == Some(Rational(Int(timescale), Int(frameDuration))) &&
      r.value.aspectRatio == Rational(Int(1), Int(1)) && r.value.colorspace == "C420mpeg2"
  {
    HeaderBytes(fh, timescale, frameDuration);
    HeaderTextParses(fh, timescale, frameDuration);
  }

  /** The header buffer is the encoded text and a final line feed, and decodes back to the text. */
  lemma HeaderBytes(fh: FrameHeader, timescale: nat, frameDuration: nat)
    ensures var b := Y4mHeader(fh, timescale, frameDuration);
      |b| > 0 && b[|b| - 1] == LineFeed && LineFeed !in b[..|b| - 1] &&
      AsciiDecode(b[..|b| - 1]) == HeaderText(fh, timescale, frameDuration)
  {
    var text := HeaderText(fh, timescale, frameDuration);
    var b := Y4mHeader(fh, timescale, frameDuration);
    HeaderTextPlain(fh, timescale, frameDuration);
    assert b[..|b| - 1] == AsciiEncode(text);
    forall i | 0 <= i < |b| - 1 ensures b[i] != LineFeed {
      assert b[i] as int == text[i] as int;
    }
    AsciiRoundTrip(text);
  }

  /** The header text parses back to the first frame's size, the rate, square pixels and 4:2:0. */
  lemma HeaderTextParses(fh: FrameHeader, timescale: nat, frameDuration: nat)
    ensures var r := ParseHeader(HeaderText(fh, timescale, frameDuration));
      r.Ok? && r.value.width == Int(fh.width) && r.value.height == Int(fh.height) &&
      r.value.frameRate == Some(Rational(Int(timescale), Int(frameDuration))) &&
      r.value.aspectRatio == Rational(Int(1), Int(1)) && r.value.colorspace == "C420mpeg2"
  {
    HeaderTextPrints(fh, timescale, frameDuration);
    HeaderRoundTrip(StreamHeader(fh, timescale, frameDuration));
  }


  /** The planes of a `width` x `height` frame in 4:2:0: chroma halved both ways, rounded up. */
  predicate Fits420(frame: YuvFrame, width: nat, height: nat) {
    |frame.y.data| == width * height &&
    |frame.u.data| == ((width + 1) / 2) * ((height + 1) / 2) &&
    |frame.v.data| == ((width + 1) / 2) * ((height + 1) / 2)
  }

  /** Every frame has the 4:2:0 planes of the first frame's size, which the header announces. */
  predicate SameGeometry(frames: seq<YuvFrame>) {
    frames != [] ==>
      forall k | 0 <= k < |frames| :: Fits420(frames[k], frames[0].header.width, frames[0].header.height)
  }

  /** `parsed` is frame number `fn` of a `width` x `height` stream and carries the planes of `frame`. */
  predicate ParsedAs(parsed: YuvFrame, frame: YuvFrame, width: nat, height: nat, fn: nat) {
    parsed.header == FrameHeader(width, height, fn) &&
    parsed.y == GrayImage(width, height, frame.y.data) &&
    parsed.u == GrayImage((width + 1) / 2, (height + 1) / 2, frame.u.data) &&
    parsed.v == GrayImage((width + 1) / 2, (height + 1) / 2, frame.v.data)
  }

  lemma PlanesSplit(y: seq<byte>, u: seq<byte>, v: seq<byte>, y': seq<byte>, u': seq<byte>, v': seq<byte>)
    requires y + u + v == y' + u' + v' && |y| == |y'| && |u| == |u'|
    ensures y == y' && u == u' && v == v'
  {
    assert y == (y + u + v)[..|y|] && y' == (y' + u' + v')[..|y|];
    assert u == (y + u + v)[|y|..|y| + |u|] && u' == (y' + u' + v')[|y|..|y| + |u|];
    assert v == (y + u + v)[|y| + |u|..] && v' == (y' + u' + v')[|y| + |u|..];
  }

  /** `parsed` are frames `fn`, `fn + 1`, ... of a `width` x `height` stream carrying the planes of `frames`. */
  predicate ParsedAll(parsed: seq<YuvFrame>, frames: seq<YuvFrame>, width: nat, height: nat, fn: nat) {
    |parsed| == |frames| &&
    forall k | 0 <= k < |frames| :: ParsedAs(parsed[k], frames[k], width, height, fn + k)
  }

  lemma ParsedAllCons(g: YuvFrame, parsed: seq<YuvFrame>, frames: seq<YuvFrame>, width: nat, height: nat, fn: nat)
    requires frames != []
    requires ParsedAs(g, frames[0], width, height, fn)
    requires ParsedAll(parsed, frames[1..], width, height, fn + 1)
    ensures ParsedAll([g] + parsed, frames, width, height, fn)
  {
    forall k | 0 <= k < |frames| ensures ParsedAs(([g] + parsed)[k], frames[k], width, height, fn + k) {
      if k > 0 {
        assert ([g] + parsed)[k] == parsed[k - 1] && frames[k] == frames[1..][k - 1];
      }
    }
  }

  /** A `FRAME` line in front of the buffer is cut and kept as the frame header `FRAME`. */
  lemma FrameTagCut(hd: Y4MHeader, frameHeader: Option<string>, fn: nat, more: seq<byte>)
    requires Unsigned(hd.width) && Unsigned(hd.height)
    ensures var s := Session(ReadingFrameHeader, AsciiEncode(FrameTag) + more, Context(Some(hd), frameHeader, fn));
      Inv(s) && CutToken(s) == Token(AsciiEncode(FrameTag), Session(ReadingFrame, more, Context(Some(hd), Some("FRAME"), fn)), [])
  {
    var tag := AsciiEncode(FrameTag);
    assert tag == [70, 82, 65, 77, 69, 10];
    IndexOfAppend(tag, more, LineFeed);
    assert IndexOf(tag, LineFeed) == 5;
    assert (tag + more)[..6] == tag && (tag + more)[6..] == more;
    assert AsciiDecode(tag[..5]) == "FRAME";
  }

  /** Draining from a `FRAME` line is draining from the frame body after it. */
  lemma FrameTagStep(hd: Y4MHeader, frameHeader: Option<string>, fn: nat, more: seq<byte>)
    requires Unsigned(hd.width) && Unsigned(hd.height)
    ensures Inv(Session(ReadingFrameHeader, AsciiEncode(FrameTag) + more, Context(Some(hd), frameHeader, fn)))
    ensures Inv(Session(ReadingFrame, more, Context(Some(hd), Some("FRAME"), fn)))
    ensures Drain(Session(ReadingFrameHeader, AsciiEncode(FrameTag) + more, Context(Some(hd), frameHeader, fn))) ==
      Drain(Session(ReadingFrame, more, Context(Some(hd), Some("FRAME"), fn)))
  {
    var s := Session(ReadingFrameHeader, AsciiEncode(FrameTag) + more, Context(Some(hd), frameHeader, fn));
    var s1 := Session(ReadingFrame, more, Context(Some(hd), Some("FRAME"), fn));
    FrameTagCut(hd, frameHeader, fn, more);
    DrainToken(s);
    var after := Drain(s1).frames;
    assert [] + after == after;
  }

  /** A frame body of the announced 4:2:0 geometry in front of the buffer is cut and emitted as frame `fn`. */
  lemma FrameBodyCut(hd: Y4MHeader, frame: YuvFrame, fn: nat, width: nat, height: nat, more: seq<byte>)
    requires hd.width == Int(width) && hd.height == Int(height) && hd.colorspace == "C420mpeg2"
    requires Fits420(frame, width, height)
    ensures var s := Session(ReadingFrame, frame.y.data + frame.u.data + frame.v.data + more, Context(Some(hd), Some("FRAME"), fn));
      var c := CutToken(s);
      Inv(s) && c.Token? && c.next == Session(ReadingFrameHeader, more, Context(Some(hd), Some("FRAME"), fn + 1)) &&
      |c.emitted| == 1 && ParsedAs(c.emitted[0], frame, width, height, fn)
  {
    var planes := frame.y.data + frame.u.data + frame.v.data;
    ChromaGeometry(hd, width, height);
    assert hd.GetFrameSize() == Int(|planes|);
    assert (planes + more)[..|planes|] == planes && (planes + more)[|planes|..] == more;
    var g := ParseFrame(planes, hd, "FRAME", fn).value;
    PlanesSplit(g.y.data, g.u.data, g.v.data, frame.y.data, frame.u.data, frame.v.data);
  }

  /** Draining from a frame body is emitting that frame, then draining from the frame-header state after it. */
  lemma {:induction false} FrameBodyStep(hd: Y4MHeader, frame: YuvFrame, fn: nat, width: nat, height: nat, more: seq<byte>)
    requires hd.width == Int(width) && hd.height == Int(height) && hd.colorspace == "C420mpeg2"
    requires Fits420(frame, width, height)
    ensures Inv(Session(ReadingFrame, frame.y.data + frame.u.data + frame.v.data + more, Context(Some(hd), Some("FRAME"), fn)))
    ensures Inv(Session(ReadingFrameHeader, more, Context(Some(hd), Some("FRAME"), fn + 1)))
    ensures
      var d := Drain(Session(ReadingFrame, frame.y.data + frame.u.data + frame.v.data + more, Context(Some(hd), Some("FRAME"), fn)));
      var d' := Drain(Session(ReadingFrameHeader, more, Context(Some(hd), Some("FRAME"), fn + 1)));
      d.session == d'.session && d.error == d'.error &&
      |d.frames| > 0 && ParsedAs(d.frames[0], frame, width, height, fn) && d.frames[1..] == d'.frames
  {
    var s := Session(ReadingFrame, frame.y.data + frame.u.data + frame.v.data + more, Context(Some(hd), Some("FRAME"), fn));
    FrameBodyCut(hd, frame, fn, width, height, more);
    var c := CutToken(s);
    DrainToken(s);
    var after := Drain(c.next).frames;
    assert (c.emitted + after)[1..] == after && (c.emitted + after)[0] == c.emitted[0];
  }

  /** With nothing buffered in the frame-header state the loop stops at once. */
  lemma {:induction false} NothingBuffered(hd: Y4MHeader, frameHeader: Option<string>, fn: nat)
    requires Unsigned(hd.width) && Unsigned(hd.height)
    ensures var s := Session(ReadingFrameHeader, [], Context(Some(hd), frameHeader, fn));
      Inv(s) && Drain(s) == Step(s, [], None)
  {
    var s := Session(ReadingFrameHeader, [], Context(Some(hd), frameHeader, fn));
    assert CutToken(s).Wait?;
  }

  lemma RecordsCons(frames: seq<YuvFrame>)
    requires frames != []
    ensures Records(frames) ==
      AsciiEncode(FrameTag) + (frames[0].y.data + frames[0].u.data + frames[0].v.data + Records(frames[1..]))
  {
  }

  /**
   * Draining `s` ends without an error on an empty buffer in the frame-header state, having
   * emitted `frames` as frames `fn`, `fn + 1`, ... of a `width` x `height` stream.
   */
  ghost predicate DrainsTo(s: Session, frames: seq<YuvFrame>, width: nat, height: nat, fn: nat) {
    Inv(s) &&
    var d := Drain(s);
    d.error.None? && d.session.buffer == [] && d.session.state == ReadingFrameHeader &&
    ParsedAll(d.frames, frames, width, height, fn)
  }

  /** One more record in front of records that drain as expected. */
  lemma {:induction false} DrainRecordsStep(hd: Y4MHeader, frames: seq<YuvFrame>, frameHeader: Option<string>, fn: nat, width: nat, height: nat)
    requires hd.width == Int(width) && hd.height == Int(height) && hd.colorspace == "C420mpeg2"
    requires frames != [] && Fits420(frames[0], width, height)
    requires DrainsTo(Session(ReadingFrameHeader, Records(frames[1..]), Context(Some(hd), Some("FRAME"), fn + 1)), frames[1..], width, height, fn + 1)
    ensures DrainsTo(Session(ReadingFrameHeader, Records(frames), Context(Some(hd), frameHeader, fn)), frames, width, height, fn)
  {
    var f := frames[0];
    var planes := f.y.data + f.u.data + f.v.data;
    var rest := Records(frames[1..]);
    var s := Session(ReadingFrameHeader, Records(frames), Context(Some(hd), frameHeader, fn));
    var s1 := Session(ReadingFrame, planes + rest, Context(Some(hd), Some("FRAME"), fn));
    var s2 := Session(ReadingFrameHeader, rest, Context(Some(hd), Some("FRAME"), fn + 1));
    RecordsCons(frames);
    assert s.buffer == AsciiEncode(FrameTag) + (planes + rest);
    FrameTagStep(hd, frameHeader, fn, planes + rest);
    assert Inv(s) && Drain(s) == Drain(s1);
    FrameBodyStep(hd, f, fn, width, height, rest);
    var d, d2 := Drain(s1), Drain(s2);
    assert d.session == d2.session && d.error == d2.error && d.frames[1..] == d2.frames;
    ParsedAllCons(d.frames[0], d2.frames, frames, width, height, fn);
    assert d.frames == [d.frames[0]] + d2.frames;
  }

  /**
   * After the stream header, the records of frames with the announced 4:2:0 geometry drain to
   * an empty buffer in the frame-header state, one parsed frame per record, numbered on from `fn`.
   */
  lemma {:induction false} DrainRecords(hd: Y4MHeader, frames: seq<YuvFrame>, frameHeader: Option<string>, fn: nat, width: nat, height: nat)
    requires hd.width == Int(width) && hd.height == Int(height) && hd.colorspace == "C420mpeg2"
    requires forall k | 0 <= k < |frames| :: Fits420(frames[k], width, height)
    ensures DrainsTo(Session(ReadingFrameHeader, Records(frames), Context(Some(hd), frameHeader, fn)), frames, width, height, fn)
    decreases |frames|
  {
    if frames == [] {
      NothingBuffered(hd, frameHeader, fn);
    } else {
      DrainRecords(hd, frames[1..], Some("FRAME"), fn + 1, width, height);
      DrainRecordsStep(hd, frames, frameHeader, fn, width, height);
    }
  }

  /** The header line in front of the buffer is cut and parsed into the header it describes. */
  lemma HeaderCut(fh: FrameHeader, timescale: nat, frameDuration: nat, more: seq<byte>)
    ensures var b := Y4mHeader(fh, timescale, frameDuration);
      var s := Session(ReadingHeader, b + more, Context(None, None, 0));
      var hd := ParseHeader(HeaderText(fh, timescale, frameDuration));
      hd.Ok? && CutToken(s) == Token(b, Session(ReadingFrameHeader, more, Context(Some(hd.value), None, 0)), [])
  {
    HeaderBytes(fh, timescale, frameDuration);
    HeaderTextParses(fh, timescale, frameDuration);
    HeaderLineCut(Y4mHeader(fh, timescale, frameDuration), more);
  }

  /** A line that parses as a header, in front of the buffer, is cut as one token and stored. */
  lemma HeaderLineCut(line: seq<byte>, more: seq<byte>)
    requires |line| > 0 && line[|line| - 1] == LineFeed && LineFeed !in line[..|line| - 1]
    requires ParseHeader(AsciiDecode(line[..|line| - 1])).Ok?
    ensures var s := Session(ReadingHeader, line + more, Context(None, None, 0));
      var hd := ParseHeader(AsciiDecode(line[..|line| - 1])).value;
      CutToken(s) == Token(line, Session(ReadingFrameHeader, more, Context(Some(hd), None, 0)), [])
  {
    var s := Session(ReadingHeader, line + more, Context(None, None, 0));
    var i := IndexOf(line, LineFeed);
    assert i == |line| - 1 by {
      assert line[|line| - 1] == LineFeed;
      assert forall k | 0 <= k < |line| - 1 :: line[..|line| - 1][k] == line[k];
    }
    IndexOfAppend(line, more, LineFeed);
    assert (line + more)[..|line|] == line && (line + more)[|line|..] == more;
    assert NextChunk(s.buffer, s.state, FrameSize(s.ctx)) == Ok(Some(line));
  }

  /** Draining from the stream header line is draining from the records after it, with the parsed header. */
  lemma HeaderStep(fh: FrameHeader, timescale: nat, frameDuration: nat, more: seq<byte>)
    ensures var b := Y4mHeader(fh, timescale, frameDuration);
      var hd := ParseHeader(HeaderText(fh, timescale, frameDuration));
      hd.Ok? && Unsigned(hd.value.width) && Unsigned(hd.value.height) &&
      Drain(Session(ReadingHeader, b + more, Context(None, None, 0))) ==
      Drain(Session(ReadingFrameHeader, more, Context(Some(hd.value), None, 0)))
  {
    var b := Y4mHeader(fh, timescale, frameDuration);
    var s := Session(ReadingHeader, b + more, Context(None, None, 0));
    HeaderCut(fh, timescale, frameDuration, more);
    var s1 := CutToken(s).next;
    DrainToken(s);
    var after := Drain(s1).frames;
    assert [] + after == after;
  }

  /** Draining a non-empty written stream from the header state yields the frames' planes and an empty buffer. */
  lemma DrainWritten(frames: seq<YuvFrame>, timescale: nat, frameDuration: nat)
    requires frames != [] && SameGeometry(frames)
    ensures var d := Drain(Session(ReadingHeader, Stream(frames, timescale, frameDuration), Context(None, None, 0)));
      d.error.None? && d.session.buffer == [] && d.session.state == ReadingFrameHeader &&
      ParsedAll(d.frames, frames, frames[0].header.width, frames[0].header.height, 0)
  {
    var fh := frames[0].header;
    var b := Y4mHeader(fh, timescale, frameDuration);
    HeaderStep(fh, timescale, frameDuration, Records(frames));
    HeaderTextParses(fh, timescale, frameDuration);
    DrainRecords(ParseHeader(HeaderText(fh, timescale, frameDuration)).value, frames, None, 0, fh.width, fh.height);
  }

  /**
   * Round trip: what `write` sends for frames of one 4:2:0 geometry, fed to the parser in one
   * chunk, gives back every frame's planes, numbered from 0, and completes without an error.
   */
  lemma ParseWritten(frames: seq<YuvFrame>, timescale: nat, frameDuration: nat)
    requires SameGeometry(frames)
    ensures var r := Feed(Initial(), Stream(frames, timescale, frameDuration));
      r.error.None? && |r.frames| == |frames| && Finish(r.session) == Pass &&
      (frames != [] ==> ParsedAll(r.frames, frames, frames[0].header.width, frames[0].header.height, 0))
  {
    var data := Stream(frames, timescale, frameDuration);
    assert Initial().(buffer := Initial().buffer + data) == Session(ReadingHeader, data, Context(None, None, 0));
    if frames == [] {
      EmptyStream();
    } else {
      DrainWritten(frames, timescale, frameDuration);
    }
  }
}
