/**
 * The YUV4MPEG2 stream header (src/y4m.ts): its fields with their defaults, the plane geometry
 * they imply, parsing from the header line and printing back.
 */
module Y4M {
  import opened Wrappers
  import opened Text
  import Frame

  datatype Interlacing = Progressive | TopFieldFirst | BottomFieldFirst | Mixed

  /** `interlacingFromChar`: `t`, `b` and `m` select a field order; anything else is progressive. */
  function InterlacingFromChar(ch: string): (r: Interlacing)
    ensures r == TopFieldFirst <==> ch == "t"
    ensures r == BottomFieldFirst <==> ch == "b"
    ensures r == Mixed <==> ch == "m"
  {
    if ch == "t" then TopFieldFirst
    else if ch == "b" then BottomFieldFirst
    else if ch == "m" then Mixed
    else Progressive
  }

  datatype HeaderError = WrongMagic | BadRational(text: string)

  /** JavaScript arithmetic on numbers: NaN and `undefined` operands give NaN. */
  function Mul(a: Num, b: Num): Num {
    if a.Int? && b.Int? then Int(a.value * b.value) else NaN
  }

  function Add(a: Num, b: Num): Num {
    if a.Int? && b.Int? then Int(a.value + b.value) else NaN
  }

  /** `Math.ceil(a / 2)`. */
  function CeilHalf(a: Num): (r: Num)
    ensures r.Int? <==> a.Int?
    ensures r.Int? ==> a.value <= 2 * r.value <= a.value + 1
  {
    if a.Int? then Int((a.value + 1) / 2) else NaN
  }

  /**
   * A parsed or default header. `width`, `height` and `frameRate` start out undefined (`Undefined`
   * and None here); `colorspace` holds the whole `C` token, so any text can appear in it.
   */
  datatype Y4MHeader = Y4MHeader(
    width: Num,
    height: Num,
    frameRate: Option<Frame.Rational>,
    interlacing: Interlacing,
    aspectRatio: Frame.Rational,
    colorspace: string,
    comment: Option<string>,
    timeScale: Num,
    videoMediaTimeScale: Option<Num>)
  {
    /** `chromaWidth`: full width for C444 and C422, otherwise half the width rounded up. */
    function ChromaWidth(): (r: Num)
      ensures colorspace == "C444" || colorspace == "C422" ==> r == width
      ensures colorspace != "C444" && colorspace != "C422" ==> r == CeilHalf(width)
    {
      if colorspace == "C444" || colorspace == "C422" then width else CeilHalf(width)
    }

    /** `chromaHeight`: full height for C444 only, otherwise half the height rounded up. */
    function ChromaHeight(): (r: Num)
      ensures colorspace == "C444" ==> r == height
      ensures colorspace != "C444" ==> r == CeilHalf(height)
    {
      if colorspace == "C444" then height else CeilHalf(height)
    }

    /** `chromaSize`: the product of the chroma dimensions, NaN when one of them is not a number. */
    function ChromaSize(): (r: Num)
      ensures r.Int? <==> width.Int? && height.Int?
      ensures r.Int? ==> r.value == ChromaWidth().value * ChromaHeight().value
      ensures !r.Int? ==> r == NaN
    {
      Mul(ChromaWidth(), ChromaHeight())
    }

    /** `lumaSize`: width times height, NaN when one of them is not a number. */
    function LumaSize(): (r: Num)
      ensures r.Int? <==> width.Int? && height.Int?
      ensures r.Int? ==> r.value == width.value * height.value
      ensures !r.Int? ==> r == NaN
    {
      Mul(width, height)
    }

    /** `getFrameSize`: luma plus two chroma planes. */
    function GetFrameSize(): (r: Num)
      ensures r.Int? <==> width.Int? && height.Int?
      ensures r.Int? ==> r.value == LumaSize().value + 2 * ChromaSize().value
      ensures !r.Int? ==> r == NaN
    {
      Add(LumaSize(), Mul(ChromaSize(), Int(2)))
    }

    /**
     * `toString`: every field but interlacing and the comment, which are printed as `Ip` and
     * `XYSCSS=420MPEG2`; no line feed. An unset frame rate makes it throw.
     */
    function ToString(): (s: Option<string>)
      ensures s.Some? <==> frameRate.Some?
      ensures s.Some? ==> |s.value| >= |Magic| + |Comment420| && s.value[..|Magic|] == Magic
      ensures s.Some? ==> s.value[|s.value| - |Comment420|..] == Comment420
    {
      match frameRate
      case None => None
      case Some(rate) =>
        JoinEndsWithLast(Tokens(), ' ');
        Some("YUV4MPEG2 " + Join(Tokens(), ' '))
    }

    /** The space-separated tokens `toString` prints after the magic. */
    function Tokens(): (ts: seq<string>)
      requires frameRate.Some?
      ensures |ts| == 7
      ensures ts[0] == "W" + NumToString(width) && ts[1] == "H" + NumToString(height)
      ensures ts[2] == "F" + NumToString(frameRate.value.numerator) + ":" + NumToString(frameRate.value.denominator)
      ensures ts[3] == "Ip" && ts[5] == colorspace && ts[6] == Comment420
      ensures ts[4] == "A" + NumToString(aspectRatio.numerator) + ":" + NumToString(aspectRatio.denominator)
    {
      ["W" + NumToString(width),
       "H" + NumToString(height),
       "F" + NumToString(frameRate.value.numerator) + ":" + NumToString(frameRate.value.denominator),
       "Ip",
       "A" + NumToString(aspectRatio.numerator) + ":" + NumToString(aspectRatio.denominator),
       colorspace,
       Comment420]
    }
  }

  /** The comment token `toString` always prints. */
  const Comment420: string := "XYSCSS=420MPEG2"

  /**
   * The header before any tag is applied: the field initialisers of `Y4MHeader`. It has no
   * frame size, and printing it throws because the frame rate is unset.
   */
  function Default(): (h: Y4MHeader)
    ensures h.GetFrameSize() == NaN && h.ToString().None?
  {
    Y4MHeader(Undefined, Undefined, None, Progressive, Frame.Rational(Int(1), Int(1)), "C420mpeg2", None, Int(-1), None)
  }

  const Magic: string := "YUV4MPEG2 "

  /** The longest prefix of `s` made of decimal digits: the greedy `\d+`. */
  function LeadingDigits(s: string): (d: string)
    ensures AllDigits(d) && d <= s
    ensures |d| == |s| || !IsDigit(s[|d|])
  {
    if s != [] && IsDigit(s[0]) then [s[0]] + LeadingDigits(s[1..]) else []
  }

  /** `tag` occurs at position `k` of `line` and is followed by a digit. */
  predicate TagAt(line: string, tag: string, k: nat) {
    k + |tag| < |line| && line[k..k + |tag|] == tag && IsDigit(line[k + |tag|])
  }

  /** The leftmost position from `from` on where `tag` is followed by a digit, or -1. */
  function FindTag(line: string, tag: string, from: nat): (k: int)
    ensures k == -1 || (from <= k && TagAt(line, tag, k))
    ensures forall j: nat | from <= j && (k == -1 || j < k) :: !TagAt(line, tag, j)
    decreases |line| - from
  {
    if from + |tag| >= |line| then -1
    else if TagAt(line, tag, from) then from
    else FindTag(line, tag, from + 1)
  }

  /**
   * `/TAG(?<ts>\d+)/.exec(line)` followed by `parseInt` of the group: no match exactly when the
   * tag is nowhere followed by a digit; otherwise the value of the whole digit run after the
   * leftmost such occurrence.
   */
  function MatchNumber(line: string, tag: string): (r: Option<nat>)
    ensures r.None? <==> forall k: nat :: !TagAt(line, tag, k)
    ensures r.Some? ==>
      var k := FindTag(line, tag, 0);
      k >= 0 && TagAt(line, tag, k) && (forall j: nat | j < k :: !TagAt(line, tag, j)) &&
      r.value == DecimalValue(LeadingDigits(line[k + |tag|..]))
  {
    var k := FindTag(line, tag, 0);
    if k == -1 then None else Some(DecimalValue(LeadingDigits(line[k + |tag|..])))
  }

  /**
   * One iteration of the token loop of `fromString`; `line` is the whole header line. Only an
   * `F` or `A` value that is not a rational throws; an empty token or an unknown key is ignored.
   */
  function ApplyToken(h: Y4MHeader, s: string, line: string): (r: Result<Y4MHeader, HeaderError>)
    ensures r.Err? <==> RationalToken(s) && Count(s[1..], ':') != 1
    ensures r.Err? ==> r.error == BadRational(s[1..])
    ensures s == [] || s[0] !in "WHFIACX" ==> r == Ok(h)
    ensures s != [] && s[0] == 'W' ==> r == Ok(h.(width := ParseInt(s[1..])))
    ensures s != [] && s[0] == 'H' ==> r == Ok(h.(height := ParseInt(s[1..])))
    ensures s != [] && s[0] == 'I' ==>
      r == Ok(h.(interlacing := InterlacingFromChar(if |s| > 1 then s[1..2] else "")))
    ensures s != [] && s[0] == 'C' ==> r == Ok(h.(colorspace := s))
    ensures s != [] && s[0] == 'X' ==> r == Ok(ApplyComment(h, s[1..], line))
  {
    if s == [] then Ok(h)
    else if s[0] == 'W' then Ok(h.(width := ParseInt(s[1..])))
    else if s[0] == 'H' then Ok(h.(height := ParseInt(s[1..])))
    else if s[0] == 'F' then ApplyFrameRate(h, s[1..])
    else if s[0] == 'I' then Ok(h.(interlacing := InterlacingFromChar(if |s| > 1 then s[1..2] else "")))
    else if s[0] == 'A' then ApplyAspectRatio(h, s[1..])
    else if s[0] == 'C' then Ok(h.(colorspace := s))
    else if s[0] == 'X' then Ok(ApplyComment(h, s[1..], line))
    else Ok(h)
  }

  /** The `F` tag: frame rate, and the time scales taken from its numerator. */
  function ApplyFrameRate(h: Y4MHeader, value: string): (r: Result<Y4MHeader, HeaderError>)
    ensures r.Ok? <==> Count(value, ':') == 1
    ensures r.Err? ==> r.error == BadRational(value)
    ensures r.Ok? ==>
      var q := Frame.ParseRational(value).value;
      r.value == h.(frameRate := Some(q), timeScale := q.numerator, videoMediaTimeScale := Some(q.numerator))
  {
    var parsed := Frame.ParseRational(value);
    if parsed.Err? then Err(BadRational(value))
    else
      var rate := parsed.value;
      Ok(h.(frameRate := Some(rate), timeScale := rate.numerator, videoMediaTimeScale := Some(rate.numerator)))
  }

  /** The `A` tag: pixel aspect ratio. */
  function ApplyAspectRatio(h: Y4MHeader, value: string): (r: Result<Y4MHeader, HeaderError>)
    ensures r.Ok? <==> Count(value, ':') == 1
    ensures r.Err? ==> r.error == BadRational(value)
    ensures r.Ok? ==> r.value == h.(aspectRatio := Frame.ParseRational(value).value)
  {
    var parsed := Frame.ParseRational(value);
    if parsed.Err? then Err(BadRational(value)) else Ok(h.(aspectRatio := parsed.value))
  }

  /**
   * The `X` tag: the comment, then a `VMTS=` number anywhere in the line, or failing that a
   * `TS=` number anywhere in the line.
   */
  function ApplyComment(h: Y4MHeader, value: string, line: string): (r: Y4MHeader)
    ensures r.comment == Some(value)
    ensures MatchNumber(line, "VMTS=").Some? ==>
      r == h.(comment := Some(value), videoMediaTimeScale := Some(Int(MatchNumber(line, "VMTS=").value)))
    ensures MatchNumber(line, "VMTS=").None? && MatchNumber(line, "TS=").Some? ==>
      r == h.(comment := Some(value), timeScale := Int(MatchNumber(line, "TS=").value))
    ensures MatchNumber(line, "VMTS=").None? && MatchNumber(line, "TS=").None? ==>
      r == h.(comment := Some(value))
  {
    var withComment := h.(comment := Some(value));
    var vmts := MatchNumber(line, "VMTS=");
    var ts := MatchNumber(line, "TS=");
    if vmts.Some? then withComment.(videoMediaTimeScale := Some(Int(vmts.value)))
    else if ts.Some? then withComment.(timeScale := Int(ts.value))
    else withComment
  }

  /** The header after the first `|tokens|` loop iterations, or the first exception. */
  function ApplyTokens(tokens: seq<string>, line: string): (r: Result<Y4MHeader, HeaderError>)
    ensures r.Ok? ==> Unsigned(r.value.width) && Unsigned(r.value.height)
  {
    if tokens == [] then Ok(Default())
    else
      var before := ApplyTokens(tokens[..|tokens| - 1], line);
      if before.Err? then before else ApplyToken(before.value, tokens[|tokens| - 1], line)
  }

  /** `Y4MHeader.fromString` as a function of the line. */
  function ParseHeader(line: string): (r: Result<Y4MHeader, HeaderError>)
    ensures r.Ok? ==> Unsigned(r.value.width) && Unsigned(r.value.height)
  {
    if |line| < 10 || line[..10] != Magic then Err(WrongMagic)
    else ApplyTokens(Split(line[10..], ' '), line)
  }

  /** `Y4MHeader.fromString`: check the magic, then apply the tokens in order in a loop. */
  method FromString(line: string) returns (r: Result<Y4MHeader, HeaderError>)
    ensures r == ParseHeader(line)
    ensures r.Ok? ==> Unsigned(r.value.width) && Unsigned(r.value.height)
  {
    if |line| < 10 || line[..10] != Magic {
      return Err(WrongMagic);
    }
    var split := Split(line[10..], ' ');
    var header := Default();
    for i := 0 to |split|
      invariant ApplyTokens(split[..i], line) == Ok(header)
    {
      assert split[..i + 1][..i] == split[..i];
      var next := ApplyToken(header, split[i], line);
      if next.Err? {
        ApplyTokensErrSticks(split, i + 1, line);
        return next;
      }
      header := next.value;
    }
    assert split[..|split|] == split;
    return Ok(header);
  }

  /** An exception stops the loop: the result of every longer prefix is that exception. */
  lemma {:induction false} ApplyTokensErrSticks(tokens: seq<string>, k: nat, line: string)
    requires k <= |tokens|
    requires ApplyTokens(tokens[..k], line).Err?
    ensures ApplyTokens(tokens, line) == ApplyTokens(tokens[..k], line)
    decreases |tokens|
  {
    if k < |tokens| {
      var init := tokens[..|tokens| - 1];
      assert init[..k] == tokens[..k];
      ApplyTokensErrSticks(init, k, line);
    } else {
      assert tokens[..k] == tokens;
    }
  }

  /** A token whose key makes `fromString` parse a rational (`F` or `A`). */
  predicate RationalToken(s: string) {
    s != [] && (s[0] == 'F' || s[0] == 'A')
  }

  /** `fromString` throws only on a wrong magic or on an `F`/`A` value without exactly one colon. */
  lemma {:induction false} ApplyTokensOk(tokens: seq<string>, line: string)
    ensures ApplyTokens(tokens, line).Ok? <==>
      forall k | 0 <= k < |tokens| :: RationalToken(tokens[k]) ==> Count(tokens[k][1..], ':') == 1
  {
    if tokens != [] {
      var init := tokens[..|tokens| - 1];
      ApplyTokensOk(init, line);
      assert forall k | 0 <= k < |init| :: init[k] == tokens[k];
    }
  }

  lemma ParseHeaderOk(line: string)
    ensures ParseHeader(line).Ok? <==>
      |line| >= 10 && line[..10] == Magic &&
      forall s | s in Split(line[10..], ' ') :: RationalToken(s) ==> Count(s[1..], ':') == 1
  {
    if |line| >= 10 && line[..10] == Magic {
      ApplyTokensOk(Split(line[10..], ' '), line);
    }
  }

  lemma ParseHeaderWrongMagic(line: string)
    requires |line| < 10 || line[..10] != Magic
    ensures ParseHeader(line) == Err(WrongMagic)
  {
  }

  /** A line with the magic and no tags gives every default. */
  lemma ParseHeaderNoTags()
    ensures ParseHeader(Magic) == Ok(Default())
  {
    assert Magic[10..] == "";
    assert Split("", ' ') == [""];
    assert [""][..0] == [];
  }

  /** Headers whose fields print without spaces and parse back unchanged. */
  predicate Printable(h: Y4MHeader) {
    Unsigned(h.width) && Unsigned(h.height) &&
    h.frameRate.Some? && Reparses(h.frameRate.value.numerator) && Reparses(h.frameRate.value.denominator) &&
    Reparses(h.aspectRatio.numerator) && Reparses(h.aspectRatio.denominator) &&
    |h.colorspace| > 0 && h.colorspace[0] == 'C' && ' ' !in h.colorspace
  }

  /** A rational part that prints without a sign and parses back to itself. */
  predicate Reparses(x: Num) {
    Unsigned(x) && !x.Undefined?
  }

  lemma RationalText(n: Num, d: Num)
    requires Reparses(n) && Reparses(d)
    ensures Frame.ParseRational(NumToString(n) + ":" + NumToString(d)) == Ok(Frame.Rational(n, d))
  {
    NumToStringHasNoChar(n, ':');
    NumToStringHasNoChar(d, ':');
    var text := NumToString(n) + ":" + NumToString(d);
    assert text == NumToString(n) + ([':'] + NumToString(d));
    SplitAfter(NumToString(n), NumToString(d), ':');
    SplitNoSep(NumToString(d), ':');
    ParseIntOfNumToString(n);
    ParseIntOfNumToString(d);
  }

  lemma ApplyTokensSnoc(tokens: seq<string>, t: string, line: string)
    ensures ApplyTokens(tokens, line).Err? ==> ApplyTokens(tokens + [t], line) == ApplyTokens(tokens, line)
    ensures ApplyTokens(tokens, line).Ok? ==>
      ApplyTokens(tokens + [t], line) == ApplyToken(ApplyTokens(tokens, line).value, t, line)
  {
    assert (tokens + [t])[..|tokens|] == tokens;
  }

  lemma NumberTokenApplies(p: Y4MHeader, key: char, x: Num, line: string)
    requires key == 'W' || key == 'H'
    requires Unsigned(x)
    ensures key == 'W' ==> ApplyToken(p, [key] + NumToString(x), line) == Ok(p.(width := Reparsed(x)))
    ensures key == 'H' ==> ApplyToken(p, [key] + NumToString(x), line) == Ok(p.(height := Reparsed(x)))
  {
    assert ([key] + NumToString(x))[1..] == NumToString(x);
    ParseIntOfNumToString(x);
  }

  lemma RationalTokenApplies(p: Y4MHeader, key: char, text: string, q: Frame.Rational, line: string)
    requires key == 'F' || key == 'A'
    requires Frame.ParseRational(text) == Ok(q)
    ensures key == 'F' ==>
      ApplyToken(p, [key] + text, line) ==
      Ok(p.(frameRate := Some(q), timeScale := q.numerator, videoMediaTimeScale := Some(q.numerator)))
    ensures key == 'A' ==>
      ApplyToken(p, [key] + text, line) == Ok(p.(aspectRatio := q))
  {
    assert ([key] + text)[0] == key && ([key] + text)[1..] == text;
  }

  lemma FixedTokensApply(p: Y4MHeader, colorspace: string, line: string)
    requires |colorspace| > 0 && colorspace[0] == 'C'
    ensures ApplyToken(p, "Ip", line) == Ok(p.(interlacing := Progressive))
    ensures ApplyToken(p, colorspace, line) == Ok(p.(colorspace := colorspace))
    ensures ApplyToken(p, "XYSCSS=420MPEG2", line) == Ok(ApplyComment(p, "YSCSS=420MPEG2", line))
  {
    assert "Ip"[1..2] == "p";
    assert "XYSCSS=420MPEG2"[1..] == "YSCSS=420MPEG2";
  }

  lemma ApplyTokensStep(tokens: seq<string>, t: string, line: string, before: Y4MHeader, after: Y4MHeader)
    requires ApplyTokens(tokens, line) == Ok(before)
    requires ApplyToken(before, t, line) == Ok(after)
    ensures ApplyTokens(tokens + [t], line) == Ok(after)
  {
    assert (tokens + [t])[..|tokens|] == tokens;
  }

  lemma SevenTokens(ts: seq<string>)
    requires |ts| == 7
    ensures ts == [] + [ts[0]] + [ts[1]] + [ts[2]] + [ts[3]] + [ts[4]] + [ts[5]] + [ts[6]]
  {
  }

  /** The header after the first three printed tokens: width, height and frame rate restored. */
  function AfterRate(h: Y4MHeader): Y4MHeader
    requires h.frameRate.Some?
  {
    Default().(width := Reparsed(h.width)).(height := Reparsed(h.height))
      .(frameRate := h.frameRate, timeScale := h.frameRate.value.numerator,
        videoMediaTimeScale := Some(h.frameRate.value.numerator))
  }

  /** The `W`, `H` and `F` tokens `toString` prints restore width, height and frame rate. */
  lemma PrintedRate(h: Y4MHeader, line: string)
    requires Printable(h)
    ensures ApplyTokens([] + [h.Tokens()[0]] + [h.Tokens()[1]] + [h.Tokens()[2]], line) == Ok(AfterRate(h))
  {
    var ts := h.Tokens();
    var rate := h.frameRate.value;
    var rateText := NumToString(rate.numerator) + ":" + NumToString(rate.denominator);
    assert ts[2] == ['F'] + rateText;
    RationalText(rate.numerator, rate.denominator);
    var p0 := Default();
    var p1 := p0.(width := Reparsed(h.width));
    var p2 := p1.(height := Reparsed(h.height));
    var p3 := p2.(frameRate := Some(rate), timeScale := rate.numerator, videoMediaTimeScale := Some(rate.numerator));
    NumberTokenApplies(p0, 'W', h.width, line);
    NumberTokenApplies(p1, 'H', h.height, line);
    RationalTokenApplies(p2, 'F', rateText, rate, line);
    assert ApplyTokens([], line) == Ok(p0);
    var s0: seq<string> := [];
    ApplyTokensStep(s0, ts[0], line, p0, p1);
    var s1 := s0 + [ts[0]];
    ApplyTokensStep(s1, ts[1], line, p1, p2);
    var s2 := s1 + [ts[1]];
    ApplyTokensStep(s2, ts[2], line, p2, p3);
  }

  /** The tokens `toString` prints, applied in order, restore the printed fields. */
  lemma PrintedTokens(h: Y4MHeader, line: string)
    requires Printable(h)
    ensures ApplyTokens(h.Tokens(), line).Ok?
    ensures
      var p := ApplyTokens(h.Tokens(), line).value;
      p.width == Reparsed(h.width) && p.height == Reparsed(h.height) && p.frameRate == h.frameRate &&
      p.aspectRatio == h.aspectRatio && p.colorspace == h.colorspace &&
      p.interlacing == Progressive && p.comment == Some("YSCSS=420MPEG2")
  {
    var ts := h.Tokens();
    var aspectText := NumToString(h.aspectRatio.numerator) + ":" + NumToString(h.aspectRatio.denominator);
    assert ts[4] == ['A'] + aspectText;
    RationalText(h.aspectRatio.numerator, h.aspectRatio.denominator);
    PrintedRate(h, line);
    var p3 := AfterRate(h);
    var p4 := p3.(interlacing := Progressive);
    var p5 := p4.(aspectRatio := h.aspectRatio);
    var p6 := p5.(colorspace := h.colorspace);
    var p7 := ApplyComment(p6, "YSCSS=420MPEG2", line);
    FixedTokensApply(p3, h.colorspace, line);
    FixedTokensApply(p5, h.colorspace, line);
    FixedTokensApply(p6, h.colorspace, line);
    RationalTokenApplies(p4, 'A', aspectText, h.aspectRatio, line);
    var s3 := [] + [ts[0]] + [ts[1]] + [ts[2]];
    ApplyTokensStep(s3, ts[3], line, p3, p4);
    var s4 := s3 + [ts[3]];
    ApplyTokensStep(s4, ts[4], line, p4, p5);
    var s5 := s4 + [ts[4]];
    ApplyTokensStep(s5, ts[5], line, p5, p6);
    var s6 := s5 + [ts[5]];
    ApplyTokensStep(s6, ts[6], line, p6, p7);
    SevenTokens(ts);
  }

  /** `toString` output splits back into the printed tokens. */
  lemma PrintedLineSplits(h: Y4MHeader)
    requires Printable(h)
    ensures |h.ToString().value| >= 10 && h.ToString().value[..10] == Magic
    ensures Split(h.ToString().value[10..], ' ') == h.Tokens()
  {
    var line := h.ToString().value;
    var ts := h.Tokens();
    var rate := h.frameRate.value;
    forall k | 0 <= k < 7 ensures ' ' !in ts[k] {
      NumToStringHasNoChar(h.width, ' ');
      NumToStringHasNoChar(h.height, ' ');
      NumToStringHasNoChar(rate.numerator, ' ');
      NumToStringHasNoChar(rate.denominator, ' ');
      NumToStringHasNoChar(h.aspectRatio.numerator, ' ');
      NumToStringHasNoChar(h.aspectRatio.denominator, ' ');
    }
    assert line[..10] == Magic && line[10..] == Join(ts, ' ');
    SplitJoin(ts, ' ');
  }

  /**
   * Round trip: parsing what `toString` prints keeps width, height, frame rate, aspect ratio and
   * colorspace, and resets interlacing to progressive and the comment to `YSCSS=420MPEG2`. An
   * unset width or height prints as `undefined` and comes back as NaN.
   */
  lemma HeaderRoundTrip(h: Y4MHeader)
    requires Printable(h)
    ensures ParseHeader(h.ToString().value).Ok?
    ensures
      var p := ParseHeader(h.ToString().value).value;
      p.width == Reparsed(h.width) && p.height == Reparsed(h.height) && p.frameRate == h.frameRate &&
      p.aspectRatio == h.aspectRatio && p.colorspace == h.colorspace &&
      p.interlacing == Progressive && p.comment == Some("YSCSS=420MPEG2")
  {
    PrintedLineSplits(h);
    PrintedTokens(h, h.ToString().value);
  }

  /** Chroma geometry per colorspace on known dimensions; C422 keeps the full width. */
  lemma ChromaGeometry(h: Y4MHeader, w: nat, ht: nat)
    requires h.width == Int(w) && h.height == Int(ht)
    ensures h.colorspace == "C444" ==> h.ChromaSize() == Int(w * ht)
    ensures h.colorspace == "C422" ==> h.ChromaSize() == Int(w * ((ht + 1) / 2))
    ensures h.colorspace != "C444" && h.colorspace != "C422" ==>
      h.ChromaSize() == Int(((w + 1) / 2) * ((ht + 1) / 2))
    ensures h.GetFrameSize() == Int(w * ht + 2 * h.ChromaSize().value)
  {
  }

  /** Both dimensions are known non-negative integers, as in every header that yields frames. */
  predicate KnownSize(h: Y4MHeader) {
    h.width.Int? && h.height.Int? && h.width.value >= 0 && h.height.value >= 0
  }

  /** Known dimensions give integer plane sizes that add up to the frame size. */
  lemma KnownSizeGeometry(h: Y4MHeader)
    requires KnownSize(h)
    ensures h.ChromaWidth().Int? && h.ChromaWidth().value >= 0
    ensures h.ChromaHeight().Int? && h.ChromaHeight().value >= 0
    ensures h.LumaSize() == Int(h.width.value * h.height.value) && h.LumaSize().value >= 0
    ensures h.ChromaSize() == Int(h.ChromaWidth().value * h.ChromaHeight().value) && h.ChromaSize().value >= 0
    ensures h.GetFrameSize() == Int(h.LumaSize().value + 2 * h.ChromaSize().value)
  {
  }

  /** Headers the parser produces never have a negative frame size; NaN means some dimension is unset. */
  lemma FrameSizeUnsigned(h: Y4MHeader)
    requires Unsigned(h.width) && Unsigned(h.height)
    ensures Unsigned(h.GetFrameSize())
    ensures h.GetFrameSize().Int? <==> KnownSize(h)
  {
    if KnownSize(h) {
      KnownSizeGeometry(h);
    }
  }

  /** A 16x16 4:2:0 frame takes 384 bytes. */
  lemma FrameSize16x16()
    ensures Default().(width := Int(16), height := Int(16)).GetFrameSize() == Int(384)
  {
  }

  /** Unknown dimensions, unset or unparsable, make every size NaN. */
  lemma UnknownSizeIsNaN(h: Y4MHeader)
    requires !h.width.Int? || !h.height.Int?
    ensures h.LumaSize() == NaN && h.ChromaSize() == NaN && h.GetFrameSize() == NaN
  {
  }

  /** `25:1` parses as the rational 25/1. */
  lemma Rate25()
    ensures Frame.ParseRational("25:1") == Ok(Frame.Rational(Int(25), Int(1)))
  {
    var s := "25:1";
    assert Count(s, ':') == 1;
    assert s[2] == ':' && s[0] != ':' && s[1] != ':' && s[3] != ':';
    assert IndexOf(s, ':') == 2;
    assert s[..2] == "25" && s[3..] == "1";
    assert "25"[..1] == "2" && "2"[..0] == "";
    assert ParseInt("25") == Int(25);
  }

  /** A header line with only a frame rate: width and height stay unset. */
  lemma RateOnlyLine()
    ensures ParseHeader(Magic + "F25:1") ==
      Ok(Default().(frameRate := Some(Frame.Rational(Int(25), Int(1))), timeScale := Int(25),
                    videoMediaTimeScale := Some(Int(25))))
  {
    var line := Magic + "F25:1";
    assert line[..10] == Magic && line[10..] == "F25:1";
    SplitNoSep("F25:1", ' ');
    assert "F25:1"[1..] == "25:1";
    var q := Frame.Rational(Int(25), Int(1));
    Rate25();
    var h := Default().(frameRate := Some(q), timeScale := Int(25), videoMediaTimeScale := Some(Int(25)));
    RationalTokenApplies(Default(), 'F', "25:1", q, line);
    assert ['F'] + "25:1" == "F25:1";
    ApplyTokensStep([], "F25:1", line, Default(), h);
    assert [] + ["F25:1"] == ["F25:1"];
  }

  /**
   * Unset width and height print as `Wundefined` and `Hundefined`, and reading the printed line
   * back turns them into NaN; `RateOnlyLine` gives such a header.
   */
  lemma UnsetSizePrintsUndefined(h: Y4MHeader)
    requires h.width == Undefined && h.height == Undefined && Printable(h)
    ensures h.Tokens()[0] == "Wundefined" && h.Tokens()[1] == "Hundefined"
    ensures ParseHeader(h.ToString().value).Ok?
    ensures ParseHeader(h.ToString().value).value.width == NaN
    ensures ParseHeader(h.ToString().value).value.height == NaN
  {
    HeaderRoundTrip(h);
  }

  /**
   * `TS=` also matches inside `VMTS=`, so a line with a `VMTS=` value always has a `TS=` match
   * too; the `X` tag then sets only the video media time scale and leaves `timeScale` alone.
   */
  lemma VmtsShadowsTs(h: Y4MHeader, value: string, line: string)
    requires MatchNumber(line, "VMTS=").Some?
    ensures MatchNumber(line, "TS=").Some?
    ensures ApplyComment(h, value, line).timeScale == h.timeScale
    ensures ApplyComment(h, value, line).videoMediaTimeScale == Some(Int(MatchNumber(line, "VMTS=").value))
  {
    var k: nat := FindTag(line, "VMTS=", 0);
    assert line[k + 2..k + 5] == "TS=" by {
      assert line[k..k + 5] == "VMTS=";
      assert line[k + 2..k + 5] == line[k..k + 5][2..];
    }
    assert TagAt(line, "TS=", k + 2);
  }

  /** A character that differs from the tag's rules out a match at `k`. */
  lemma NotTagAt(line: string, tag: string, k: nat, i: nat)
    requires i < |tag| && k + i < |line| && line[k + i] != tag[i]
    ensures !TagAt(line, tag, k)
  {
    if k + |tag| < |line| {
      assert line[k..k + |tag|][i] == line[k + i];
    }
  }

  /** In the example line below, position 15 is the first where `VMTS=` is followed by a digit. */
  lemma VmtsLinePosition(line: string)
    requires line == Magic + "W16 XVMTS=90000"
    ensures TagAt(line, "VMTS=", 15)
    ensures forall j: nat | j < 15 :: !TagAt(line, "VMTS=", j)
  {
    assert line[15..20] == "VMTS=";
    forall j: nat | j < 15 ensures !TagAt(line, "VMTS=", j) {
      // Only position 19 holds the `=` of the tag.
      assert line[..19] == "YUV4MPEG2 W16 XVMTS";
      assert line[j + 4] == line[..19][j + 4];
      NotTagAt(line, "VMTS=", j, 4);
    }
  }

  /** The digits `90000` have the value 90000, and they are all of the digit run. */
  lemma Digits90000()
    ensures DecimalValue(LeadingDigits("90000")) == 90000
  {
    var d := "90000";
    var ld := LeadingDigits(d);
    assert AllDigits(d);
    assert |ld| == |d| && ld <= d;
    assert ld == d[..|ld|] == d;
    assert d[..1][..0] == [] && d[..2][..1] == d[..1] && d[..3][..2] == d[..2];
    assert d[..4][..3] == d[..3] && d[..5] == d && d[..4] == d[..|d| - 1];
    assert DecimalValue(d[..1]) == 9;
    assert DecimalValue(d[..2]) == 90;
    assert DecimalValue(d[..3]) == 900;
    assert DecimalValue(d[..4]) == 9000;
  }

  /** The `VMTS=` search in the example line below finds 90000. */
  lemma VmtsLineMatch(line: string)
    requires line == Magic + "W16 XVMTS=90000"
    ensures MatchNumber(line, "VMTS=") == Some(90000)
  {
    VmtsLinePosition(line);
    assert line[15 + 5..] == "90000";
    Digits90000();
    var k := FindTag(line, "VMTS=", 0);
    assert k == 15;
  }

  /**
   * The `X` token of the line `YUV4MPEG2 W16 XVMTS=90000` sets the comment and the video media
   * time scale to 90000 and leaves the time scale as it was.
   */
  lemma VmtsLine(h: Y4MHeader)
    ensures ApplyToken(h, "XVMTS=90000", Magic + "W16 XVMTS=90000") ==
      Ok(h.(comment := Some("VMTS=90000"), videoMediaTimeScale := Some(Int(90000))))
  {
    var line := Magic + "W16 XVMTS=90000";
    assert "XVMTS=90000"[1..] == "VMTS=90000";
    VmtsLineMatch(line);
  }
}
