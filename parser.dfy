/**
 * The streaming YUV4MPEG2 demultiplexer (src/parser.ts). Bytes arrive in arbitrary chunks; a
 * three-state machine cuts the stream header line, each frame header line and each frame body out
 * of a residual buffer and emits one frame per body, numbered from 0.
 *
 * `Drain` is the `while` loop of the `next` handler as a function of the parser's state;
 * `YuvParser` is that handler and the `complete` handler as methods on the mutable state, proved
 * to follow `Drain` and `Finish`.
 */
module Parser {
  import opened Wrappers
  import opened Text
  import opened Frame
  import opened Y4M

  datatype ParserState = ReadingHeader | ReadingFrameHeader | ReadingFrame

  datatype ParseError =
    | FrameSizeUnknown             // "Illegal Y4M parser state: frame size should be known by now"
    | BadHeader(cause: HeaderError) // thrown by `Y4MHeader.fromString`
    | InvalidFrameHeader            // "Invalid frame header"
    | Unparsed(count: nat)          // "Unparsed N bytes in the end of the stream"
    | TruncatedStream               // "Parser finished while expecting frame data"

  const LineFeed: byte := 10

  /** `nextState`: header, then frame header and frame body in turn; the header is read once. */
  function NextState(state: ParserState): (r: ParserState)
    ensures r != ReadingHeader
    ensures r == ReadingFrame <==> state == ReadingFrameHeader
  {
    match state
    case ReadingHeader => ReadingFrameHeader
    case ReadingFrameHeader => ReadingFrame
    case ReadingFrame => ReadingFrameHeader
  }

  /** `buffer.subarray(0, n)`: a negative end counts from the back. */
  function Prefix(buffer: seq<byte>, n: int): (p: seq<byte>)
    ensures p <= buffer
    ensures 0 <= n <= |buffer| ==> p == buffer[..n]
  {
    if n >= 0 then buffer[..if n <= |buffer| then n else |buffer|]
    else buffer[..if |buffer| + n >= 0 then |buffer| + n else 0]
  }

  /**
   * `nextChunk`: in the header states the first line with its line feed, in the frame state the
   * first `frameSize` bytes; `None` while the token is incomplete. `frameSize` is `None` when no
   * header has been parsed and NaN when it lacks a dimension (then `length >= NaN` never holds).
   */
  function NextChunk(buffer: seq<byte>, state: ParserState, frameSize: Option<Num>): (r: Result<Option<seq<byte>>, ParseError>)
    ensures r.Err? <==> state == ReadingFrame && frameSize.None?
    ensures r.Err? ==> r.error == FrameSizeUnknown
    ensures r.Ok? && r.value.Some? ==> r.value.value <= buffer
    ensures state != ReadingFrame ==> (r == Ok(None) <==> LineFeed !in buffer)
    ensures state != ReadingFrame && r.Ok? && r.value.Some? ==>
      var c := r.value.value;
      |c| > 0 && c[|c| - 1] == LineFeed && LineFeed !in c[..|c| - 1]
    ensures state == ReadingFrame && frameSize.Some? && !frameSize.value.Int? ==> r == Ok(None)
    ensures state == ReadingFrame && frameSize.Some? && frameSize.value.Int? && frameSize.value.value >= 0 ==>
      r == if |buffer| >= frameSize.value.value then Ok(Some(buffer[..frameSize.value.value])) else Ok(None)
  {
    if state != ReadingFrame then
      var idx := IndexOf(buffer, LineFeed);
      if idx != -1 then Ok(Some(buffer[..idx + 1])) else Ok(None)
    else if frameSize.None? then Err(FrameSizeUnknown)
    else if !frameSize.value.Int? then Ok(None)
    else if |buffer| >= frameSize.value.value then Ok(Some(Prefix(buffer, frameSize.value.value)))
    else Ok(None)
  }

  /** `str.startsWith('FRAME')`. */
  predicate StartsWithFrame(s: string) {
    |s| >= 5 && s[..5] == "FRAME"
  }

  /**
   * `parseFrame`: a frame body split into its luma plane and two chroma planes, with the header
   * geometry as plane dimensions. The frame header line is checked only now, with the body in hand.
   */
  function ParseFrame(data: seq<byte>, header: Y4MHeader, frameHeader: string, fn: nat): (r: Result<YuvFrame, ParseError>)
    requires KnownSize(header) && header.GetFrameSize() == Int(|data|)
    ensures r.Err? <==> !StartsWithFrame(frameHeader)
    ensures r.Err? ==> r.error == InvalidFrameHeader
    ensures r.Ok? ==>
      var f := r.value;
      f.header == FrameHeader(header.width.value, header.height.value, fn) &&
      f.y.data + f.u.data + f.v.data == data &&
      f.y.width == header.width.value && f.y.height == header.height.value &&
      f.u.width == f.v.width == header.ChromaWidth().value &&
      f.u.height == f.v.height == header.ChromaHeight().value &&
      |f.y.data| == f.y.width * f.y.height &&
      |f.u.data| == f.u.width * f.u.height &&
      |f.v.data| == f.v.width * f.v.height
  {
    KnownSizeGeometry(header);
    if !StartsWithFrame(frameHeader) then Err(InvalidFrameHeader)
    else
      var w: nat := header.width.value;
      var h: nat := header.height.value;
      var cw: nat := header.ChromaWidth().value;
      var ch: nat := header.ChromaHeight().value;
      var luma := header.LumaSize().value;
      var chroma := header.ChromaSize().value;
      assert data[..luma] + data[luma..luma + chroma] + data[luma + chroma..] == data;
      Ok(YuvFrame(
        FrameHeader(w, h, fn),
        GrayImage(w, h, data[..luma]),
        GrayImage(cw, ch, data[luma..luma + chroma]),
        GrayImage(cw, ch, data[luma + chroma..])))
  }

  /** The variables of `readFromStream` other than the state and the buffer. */
  datatype Context = Context(header: Option<Y4MHeader>, frameHeader: Option<string>, fn: nat)

  datatype Session = Session(state: ParserState, buffer: seq<byte>, ctx: Context)

  /** What one `next` call leaves behind: the new session, the frames emitted and the exception thrown. */
  datatype Step = Step(session: Session, frames: seq<YuvFrame>, error: Option<ParseError>)

  /** The variables when the stream is subscribed. */
  function Initial(): (s: Session)
    ensures s.state == ReadingHeader && s.buffer == [] && s.ctx.header.None? && s.ctx.fn == 0
    ensures Inv(s) && NextChunk(s.buffer, s.state, FrameSize(s.ctx)) == Ok(None)
  {
    Session(ReadingHeader, [], Context(None, None, 0))
  }

  /** `header?.getFrameSize()`. */
  function FrameSize(ctx: Context): Option<Num> {
    if ctx.header.None? then None else Some(ctx.header.value.GetFrameSize())
  }

  /**
   * Holds between chunks: past the header state a header with parser-produced dimensions is
   * known, and in the frame state the frame header line is known.
   */
  predicate Inv(s: Session) {
    (s.state != ReadingHeader ==>
      s.ctx.header.Some? && Unsigned(s.ctx.header.value.width) && Unsigned(s.ctx.header.value.height)) &&
    (s.state == ReadingFrame ==> s.ctx.frameHeader.Some?)
  }

  /** In the frame state the frame size is known: a non-negative integer, or NaN for an unset dimension. */
  lemma InvFrameSize(s: Session)
    requires Inv(s)
    ensures s.state == ReadingFrame ==>
      FrameSize(s.ctx).Some? && Unsigned(FrameSize(s.ctx).value) &&
      (FrameSize(s.ctx).value.Int? <==> KnownSize(s.ctx.header.value))
  {
    if s.state == ReadingFrame {
      FrameSizeUnsigned(s.ctx.header.value);
    }
  }

  /** The result of handling one token: the updated variables and the frame it completes, if any. */
  datatype Consumed = Consumed(ctx: Context, frame: Option<YuvFrame>)

  /** What a complete token of `state` may be: a line, or a whole frame body. */
  predicate TokenFits(state: ParserState, ctx: Context, chunk: seq<byte>) {
    if state == ReadingFrame then
      ctx.header.Some? && ctx.frameHeader.Some? && KnownSize(ctx.header.value) &&
      ctx.header.value.GetFrameSize() == Int(|chunk|)
    else |chunk| > 0
  }

  /** The body of the `switch` in the loop of `next`: one token handled in `state`. */
  function Consume(state: ParserState, ctx: Context, chunk: seq<byte>): (r: Result<Consumed, ParseError>)
    requires TokenFits(state, ctx, chunk)
    ensures r.Err? ==> state != ReadingFrameHeader
    ensures r.Ok? ==> (r.value.frame.Some? <==> state == ReadingFrame)
    ensures r.Ok? ==> r.value.ctx.fn == if state == ReadingFrame then ctx.fn + 1 else ctx.fn
    ensures r.Ok? && r.value.frame.Some? ==> r.value.frame.value.header.fn == ctx.fn
    ensures r.Ok? && Inv(Session(state, [], ctx)) ==> Inv(Session(NextState(state), [], r.value.ctx))
  {
    match state
    case ReadingHeader =>
      var parsed := ParseHeader(AsciiDecode(chunk[..|chunk| - 1]));
      if parsed.Err? then Err(BadHeader(parsed.error))
      else Ok(Consumed(ctx.(header := Some(parsed.value)), None))
    case ReadingFrameHeader =>
      Ok(Consumed(ctx.(frameHeader := Some(AsciiDecode(chunk[..|chunk| - 1]))), None))
    case ReadingFrame =>
      var frame := ParseFrame(chunk, ctx.header.value, ctx.frameHeader.value, ctx.fn);
      if frame.Err? then Err(frame.error)
      else Ok(Consumed(ctx.(fn := ctx.fn + 1), Some(frame.value)))
  }

  function Emitted(frame: Option<YuvFrame>): seq<YuvFrame> {
    if frame.Some? then [frame.value] else []
  }

  /** Lexicographic measure of the loop: the frame state may consume an empty body. */
  function Rank(state: ParserState): nat {
    if state == ReadingFrame then 1 else 0
  }

  lemma AppendAssoc<T>(a: seq<T>, b: seq<T>, c: seq<T>)
    ensures a + (b + c) == (a + b) + c
  {
  }

  /** The outcome of one test of the loop condition and, when it holds, one iteration. */
  datatype Cut =
    | Wait                                                // no complete token: the loop exits
    | Thrown(cut: seq<byte>, at: Session, error: ParseError)        // the iteration throws
    | Token(cut: seq<byte>, next: Session, emitted: seq<YuvFrame>)  // the iteration completes

  /**
   * One iteration of the loop of `next`: cut the token, advance the buffer past it, handle it,
   * advance the state. An exception leaves the buffer advanced and the state as it was.
   */
  function CutToken(s: Session): (c: Cut)
    requires Inv(s)
    ensures c.Wait? <==> NextChunk(s.buffer, s.state, FrameSize(s.ctx)) == Ok(None)
    ensures c.Thrown? ==> Inv(c.at) && c.at.state == s.state && c.at.ctx == s.ctx && c.error != FrameSizeUnknown
    ensures c.Token? ==> Inv(c.next) && c.next.state == NextState(s.state)
    ensures c.Token? ==> |c.next.buffer| < |s.buffer| || (|c.next.buffer| == |s.buffer| && Rank(c.next.state) < Rank(s.state))
    ensures !c.Wait? ==> NextChunk(s.buffer, s.state, FrameSize(s.ctx)) == Ok(Some(c.cut))
    ensures c.Thrown? ==> s.buffer == c.cut + c.at.buffer
    ensures c.Token? ==> s.buffer == c.cut + c.next.buffer
  {
    InvFrameSize(s);
    var next := NextChunk(s.buffer, s.state, FrameSize(s.ctx));
    if next.Err? then Wait
    else if next.value.None? then Wait
    else
      var chunk := next.value.value;
      var rest := s.buffer[|chunk|..];
      var consumed := Consume(s.state, s.ctx, chunk);
      assert s.buffer == chunk + rest;
      if consumed.Err? then Thrown(chunk, Session(s.state, rest, s.ctx), consumed.error)
      else Token(chunk, Session(NextState(s.state), rest, consumed.value.ctx), Emitted(consumed.value.frame))
  }

  /**
   * The `while` loop of `next`: cut tokens while a complete one is buffered, stopping at the
   * first exception.
   */
  function Drain(s: Session): (r: Step)
    requires Inv(s)
    ensures Inv(r.session)
    decreases |s.buffer|, Rank(s.state)
  {
    var c := CutToken(s);
    if c.Wait? then Step(s, [], None)
    else if c.Thrown? then Step(c.at, [], Some(c.error))
    else
      var after := Drain(c.next);
      Step(after.session, c.emitted + after.frames, after.error)
  }

  /** One iteration of the loop followed by the rest of the loop. */
  lemma DrainToken(s: Session)
    requires Inv(s) && CutToken(s).Token?
    ensures var c := CutToken(s);
      Drain(s).session == Drain(c.next).session &&
      Drain(s).frames == c.emitted + Drain(c.next).frames &&
      Drain(s).error == Drain(c.next).error
  {
  }

  /** A token is cut, handled and emitted unchanged once more bytes arrive behind it. */
  lemma CutTokenExtend(s: Session, more: seq<byte>)
    requires Inv(s)
    ensures var c := CutToken(s); var c' := CutToken(s.(buffer := s.buffer + more));
      (c.Thrown? ==> c' == Thrown(c.cut, c.at.(buffer := c.at.buffer + more), c.error)) &&
      (c.Token? ==> c' == Token(c.cut, c.next.(buffer := c.next.buffer + more), c.emitted))
  {
    InvFrameSize(s);
    var next := NextChunk(s.buffer, s.state, FrameSize(s.ctx));
    if next.Ok? && next.value.Some? {
      var chunk := next.value.value;
      NextChunkExtend(s.buffer, more, s.state, FrameSize(s.ctx));
      assert (s.buffer + more)[|chunk|..] == s.buffer[|chunk|..] + more;
    }
  }

  /** Frames numbered consecutively from `fn0`. */
  predicate Numbered(frames: seq<YuvFrame>, fn0: nat) {
    forall k | 0 <= k < |frames| :: frames[k].header.fn == fn0 + k
  }

  lemma NumberedAppend(a: seq<YuvFrame>, b: seq<YuvFrame>, fn0: nat)
    requires Numbered(a, fn0) && Numbered(b, fn0 + |a|)
    ensures Numbered(a + b, fn0)
  {
    forall k | 0 <= k < |a + b|
      ensures (a + b)[k].header.fn == fn0 + k
    {
      if k >= |a| {
        assert (a + b)[k] == b[k - |a|];
      }
    }
  }

  /** Frames are numbered consecutively from the `fn` the loop starts with; `fn` ends one past the last. */
  lemma {:induction false} DrainNumbering(s: Session)
    requires Inv(s)
    ensures Drain(s).session.ctx.fn == s.ctx.fn + |Drain(s).frames|
    ensures Numbered(Drain(s).frames, s.ctx.fn)
    decreases |s.buffer|, Rank(s.state)
  {
    var c := CutToken(s);
    if c.Token? {
      TokenNumbering(s);
      DrainNumbering(c.next);
      DrainToken(s);
      NumberedAppend(c.emitted, Drain(c.next).frames, s.ctx.fn);
    }
  }

  /** A handled token emits at most one frame, numbered `fn`, and `fn` counts it. */
  lemma TokenNumbering(s: Session)
    requires Inv(s) && CutToken(s).Token?
    ensures var c := CutToken(s);
      c.next.ctx.fn == s.ctx.fn + |c.emitted| && Numbered(c.emitted, s.ctx.fn)
  {
    InvFrameSize(s);
    var next := NextChunk(s.buffer, s.state, FrameSize(s.ctx));
    var consumed := Consume(s.state, s.ctx, next.value.value);
  }

  /** The loop never grows the buffer. */
  lemma {:induction false} DrainShrinks(s: Session)
    requires Inv(s)
    ensures |Drain(s).session.buffer| <= |s.buffer|
    decreases |s.buffer|, Rank(s.state)
  {
    var c := CutToken(s);
    if c.Token? {
      DrainShrinks(c.next);
    }
  }

  /**
   * The loop never re-enters the header state, never throws the frame-size error, and exits
   * without an exception only when no complete token of the current state is buffered.
   */
  lemma {:induction false} DrainStops(s: Session)
    requires Inv(s)
    ensures s.state != ReadingHeader ==> Drain(s).session.state != ReadingHeader
    ensures Drain(s).error != Some(FrameSizeUnknown)
    ensures Drain(s).error.None? ==>
      NextChunk(Drain(s).session.buffer, Drain(s).session.state, FrameSize(Drain(s).session.ctx)) == Ok(None)
    decreases |s.buffer|, Rank(s.state)
  {
    var c := CutToken(s);
    if c.Token? {
      DrainStops(c.next);
    }
  }

  /** Between `next` calls: no complete token of the current state is buffered. */
  predicate Settled(s: Session) {
    NextChunk(s.buffer, s.state, FrameSize(s.ctx)) == Ok(None)
  }

  /** The `next` handler as a function: append the chunk, then drain. */
  function Feed(s: Session, data: seq<byte>): (r: Step)
    requires Inv(s)
    ensures Inv(r.session) && |r.session.buffer| <= |s.buffer| + |data|
    ensures r.error != Some(FrameSizeUnknown)
    ensures r.error.None? ==> Settled(r.session)
  {
    DrainShrinks(s.(buffer := s.buffer + data));
    DrainStops(s.(buffer := s.buffer + data));
    Drain(s.(buffer := s.buffer + data))
  }

  /** The `complete` handler: leftover bytes, then a missing frame body, are errors. */
  function Finish(s: Session): (o: Outcome<ParseError>)
    ensures o == Fail(Unparsed(|s.buffer|)) <==> |s.buffer| != 0
    ensures o == Fail(TruncatedStream) <==> |s.buffer| == 0 && s.state == ReadingFrame
    ensures o == Pass <==> |s.buffer| == 0 && s.state != ReadingFrame
  {
    if |s.buffer| != 0 then Fail(Unparsed(|s.buffer|))
    else if s.state == ReadingFrame then Fail(TruncatedStream)
    else Pass
  }

  /** One `next` call after another: frames accumulate; the later call's state and exception win. */
  function Then(first: Step, second: Step): Step {
    Step(second.session, first.frames + second.frames, second.error)
  }

  /**
   * The effect of bytes that arrive after a drain: none on what was emitted up to an exception;
   * otherwise they are drained from where the first drain stopped.
   */
  function Extended(r: Step, more: seq<byte>): Step
    requires Inv(r.session)
  {
    if r.error.Some? then Step(r.session.(buffer := r.session.buffer + more), r.frames, r.error)
    else Then(r, Drain(r.session.(buffer := r.session.buffer + more)))
  }

  /** A token cut from a buffer is cut unchanged once more bytes arrive. */
  lemma NextChunkExtend(buffer: seq<byte>, more: seq<byte>, state: ParserState, frameSize: Option<Num>)
    requires state == ReadingFrame && frameSize.Some? ==> Unsigned(frameSize.value)
    requires NextChunk(buffer, state, frameSize).Ok? && NextChunk(buffer, state, frameSize).value.Some?
    ensures NextChunk(buffer + more, state, frameSize) == NextChunk(buffer, state, frameSize)
  {
    if state != ReadingFrame {
      IndexOfAppend(buffer, more, LineFeed);
      var idx := IndexOf(buffer, LineFeed);
      assert (buffer + more)[..idx + 1] == buffer[..idx + 1];
    } else {
      var n := frameSize.value.value;
      assert (buffer + more)[..n] == buffer[..n];
    }
  }

  /** Draining is insensitive to bytes appended behind the buffer, up to where it stops. */
  lemma {:induction false} DrainExtend(s: Session, more: seq<byte>)
    requires Inv(s)
    ensures Drain(s.(buffer := s.buffer + more)) == Extended(Drain(s), more)
    decreases |s.buffer|, Rank(s.state)
  {
    var c := CutToken(s);
    CutTokenExtend(s, more);
    if c.Token? {
      DrainExtend(c.next, more);
      var after := Drain(c.next);
      if after.error.None? {
        var tail := Drain(after.session.(buffer := after.session.buffer + more));
        AppendAssoc(c.emitted, after.frames, tail.frames);
      }
    }
  }

  /**
   * Chunk-boundary invariance for two chunks: feeding `a` then `b` emits what feeding `a + b`
   * emits and ends in the same state; when feeding `a` throws, feeding `a + b` throws the same
   * exception after the same frames.
   */
  lemma ChunkInvariance(s: Session, a: seq<byte>, b: seq<byte>)
    requires Inv(s)
    ensures Feed(s, a).error.None? ==> Feed(s, a + b) == Then(Feed(s, a), Feed(Feed(s, a).session, b))
    ensures Feed(s, a).error.Some? ==>
      Feed(s, a + b).frames == Feed(s, a).frames && Feed(s, a + b).error == Feed(s, a).error
  {
    var sa := s.(buffer := s.buffer + a);
    assert s.(buffer := s.buffer + (a + b)) == sa.(buffer := sa.buffer + b);
    DrainExtend(sa, b);
  }

  /** The concatenation of all chunks received. */
  function Concat(chunks: seq<seq<byte>>): seq<byte> {
    if chunks == [] then [] else chunks[0] + Concat(chunks[1..])
  }

  /** A sequence of `next` calls, up to and including the first that throws. */
  function FeedAll(s: Session, chunks: seq<seq<byte>>): Step
    requires Inv(s)
    decreases |chunks|
  {
    if chunks == [] then Step(s, [], None)
    else
      var first := Feed(s, chunks[0]);
      if first.error.Some? then first else Then(first, FeedAll(first.session, chunks[1..]))
  }

  /**
   * Chunk-boundary invariance: the frames emitted and the first exception depend only on the
   * concatenation of the chunks; without an exception so do the final state and buffer.
   */
  lemma {:induction false} ChunkBoundaryInvariance(s: Session, chunks: seq<seq<byte>>)
    requires Inv(s) && Settled(s)
    decreases |chunks|
    ensures FeedAll(s, chunks).frames == Feed(s, Concat(chunks)).frames
    ensures FeedAll(s, chunks).error == Feed(s, Concat(chunks)).error
    ensures FeedAll(s, chunks).error.None? ==> FeedAll(s, chunks).session == Feed(s, Concat(chunks)).session
  {
    if chunks == [] {
      assert s.(buffer := s.buffer + []) == s;
    } else {
      ChunkInvariance(s, chunks[0], Concat(chunks[1..]));
      var first := Feed(s, chunks[0]);
      if first.error.None? {
        DrainStops(s.(buffer := s.buffer + chunks[0]));
        ChunkBoundaryInvariance(first.session, chunks[1..]);
      }
    }
  }

  /** No subscription ever throws "frame size should be known by now". */
  lemma FrameSizeAlwaysKnown(s: Session, data: seq<byte>)
    requires Inv(s)
    ensures Feed(s, data).error != Some(FrameSizeUnknown)
    ensures Inv(Feed(s, data).session)
  {
    DrainStops(s.(buffer := s.buffer + data));
  }

  /** An empty stream completes with no frames. */
  lemma EmptyStream()
    ensures Feed(Initial(), []) == Step(Initial(), [], None)
    ensures Finish(Initial()) == Pass
  {
    assert Initial().(buffer := Initial().buffer + []) == Initial();
  }

  /**
   * The loop of `next` after emitting `frames` from `start` resumes at `s`: draining `start`
   * yields those frames followed by whatever draining `s` yields.
   */
  ghost predicate Resumes(start: Session, s: Session, frames: seq<YuvFrame>) {
    Inv(start) && Inv(s) &&
    Drain(start) == Step(Drain(s).session, frames + Drain(s).frames, Drain(s).error)
  }

  /** Before the first iteration nothing has been emitted. */
  lemma ResumesStart(s: Session)
    requires Inv(s)
    ensures Resumes(s, s, [])
  {
    assert [] + Drain(s).frames == Drain(s).frames;
  }

  /** The loop exits at `s` when no token is complete: draining `start` ends there. */
  lemma ResumesWait(start: Session, s: Session, frames: seq<YuvFrame>)
    requires Resumes(start, s, frames) && CutToken(s).Wait?
    ensures Drain(start) == Step(s, frames, None)
  {
  }

  /** The loop exits when the handler throws: draining `start` ends at the throwing session. */
  lemma ResumesThrown(start: Session, s: Session, frames: seq<YuvFrame>)
    requires Resumes(start, s, frames) && CutToken(s).Thrown?
    ensures Drain(start) == Step(CutToken(s).at, frames, Some(CutToken(s).error))
  {
  }

  /** One more completed iteration extends the emitted frames by the token's frames. */
  lemma ResumesToken(start: Session, s: Session, frames: seq<YuvFrame>)
    requires Resumes(start, s, frames) && CutToken(s).Token?
    ensures Resumes(start, CutToken(s).next, frames + CutToken(s).emitted)
  {
    var c := CutToken(s);
    DrainToken(s);
    AppendAssoc(frames, c.emitted, Drain(c.next).frames);
  }

  /**
   * The state and loop of `readFromStream`: one object per subscription, with `next` and
   * `complete` as methods. Frames go back to the caller instead of to a subscriber.
   */
  class YuvParser {
    var state: ParserState
    var buffer: seq<byte>
    var header: Option<Y4MHeader>
    var frameHeader: Option<string>
    var fn: nat

    function Snapshot(): Session
      reads this
    {
      Session(state, buffer, Context(header, frameHeader, fn))
    }

    ghost predicate Valid()
      reads this
    {
      Inv(Snapshot())
    }

    constructor()
      ensures Valid() && Snapshot() == Initial()
    {
      state := ReadingHeader;
      buffer := [];
      header := None;
      frameHeader := None;
      fn := 0;
    }

    /** The `next` handler: append `data` and cut every complete token out of the buffer. */
    method Next(data: seq<byte>) returns (frames: seq<YuvFrame>, error: Option<ParseError>)
      requires Valid()
      modifies this
      ensures Valid()
      ensures Snapshot() == Feed(old(Snapshot()), data).session
      ensures frames == Feed(old(Snapshot()), data).frames
      ensures error == Feed(old(Snapshot()), data).error
    {
      buffer := buffer + data;
      ghost var start := Snapshot();
      frames := [];
      error := None;
      ResumesStart(start);
      while true
        invariant Valid()
        invariant Resumes(start, Snapshot(), frames)
        decreases |buffer|, Rank(state)
      {
        ghost var before := Snapshot();
        var cut := Advance();
        match cut
        case Wait =>
          ResumesWait(start, before, frames);
          return;
        case Thrown(_, _, e) =>
          error := Some(e);
          ResumesThrown(start, before, frames);
          return;
        case Token(_, _, emitted) =>
          ResumesToken(start, before, frames);
          frames := frames + emitted;
      }
    }

    /**
     * One test of the loop condition of `next` and, when a token is complete, one iteration:
     * cut the token, advance the buffer past it, handle it and, unless that throws, advance
     * the state.
     */
    method Advance() returns (cut: Cut)
      requires Valid()
      modifies this
      ensures Valid()
      ensures cut == CutToken(old(Snapshot()))
      ensures Snapshot() == match cut
        case Wait => old(Snapshot())
        case Thrown(_, at, _) => at
        case Token(_, next, _) => next
    {
      ghost var before := Snapshot();
      InvFrameSize(before);
      var frameSize := if header.None? then None else Some(header.value.GetFrameSize());
      var chunk := NextChunk(buffer, state, frameSize);
      if chunk.Err? {
        return Thrown([], Snapshot(), FrameSizeUnknown);
      }
      if chunk.value.None? {
        return Wait;
      }
      var c := chunk.value.value;
      buffer := buffer[|c|..];
      var emitted, thrown := Handle(c);
      if thrown.Some? {
        return Thrown(c, Snapshot(), thrown.value);
      }
      state := NextState(state);
      return Token(c, Snapshot(), emitted);
    }

    /** The `switch` on the state in the loop of `next`: handle one token `c`. */
    method Handle(c: seq<byte>) returns (emitted: seq<YuvFrame>, error: Option<ParseError>)
      requires TokenFits(state, Snapshot().ctx, c)
      modifies this
      ensures state == old(state) && buffer == old(buffer)
      ensures var r := Consume(old(state), old(Snapshot().ctx), c);
        if r.Err? then error == Some(r.error) && Snapshot().ctx == old(Snapshot().ctx)
        else error.None? && Snapshot().ctx == r.value.ctx && emitted == Emitted(r.value.frame)
    {
      emitted := [];
      error := None;
      match state {
        case ReadingHeader =>
          var parsed := FromString(AsciiDecode(c[..|c| - 1]));
          if parsed.Err? {
            error := Some(BadHeader(parsed.error));
            return;
          }
          header := Some(parsed.value);
        case ReadingFrameHeader =>
          frameHeader := Some(AsciiDecode(c[..|c| - 1]));
        case ReadingFrame =>
          var frame := ParseFrame(c, header.value, frameHeader.value, fn);
          if frame.Err? {
            error := Some(frame.error);
            return;
          }
          emitted := [frame.value];
          fn := fn + 1;
      }
    }

    /** The `complete` handler. */
    method Complete() returns (o: Outcome<ParseError>)
      ensures o == Finish(Snapshot())
    {
      if |buffer| != 0 {
        return Fail(Unparsed(|buffer|));
      } else if state == ReadingFrame {
        return Fail(TruncatedStream);
      }
      return Pass;
    }
  }
}
