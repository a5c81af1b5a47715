/** Messages as other programs print them: with other line ends, without the space behind a
    colon, without a version, with chunk sizes in any form. The parser makes the same of
    them. */
module HttpLayouts {
  import opened HttpTypes
  import opened HttpMachine
  import opened HttpRuns
  import opened HttpScans
  import opened HttpCanonical
  import opened HttpResponses

  /** eol ends every line; spaced says whether optional spaces are there, versioned whether
      a request has a version; blanks stand before a request, and padding is white space
      behind its version. */
  datatype Layout = Layout(eol: string, spaced: bool, versioned: bool, blanks: string, padding: string)
  {
    predicate Valid() {
      && (eol == "\r\n" || eol == "\n\r" || eol == "\n" || eol == "\r")
      && (forall c <- blanks :: c == ' ' || c == '\r' || c == '\n') && forall c <- padding :: c == ' '
    }

    /** Where the parser is at the start of a line. */
    function Start(): HeadPhase {
      if eol == "\n" then ExpectingCr else if eol == "\r" then ExpectingNewline else HeaderStart
    }

    function Space(): string { if spaced then " " else "" }
  }

  function Block(headers: seq<Header>, layout: Layout): string {
    if headers == [] then layout.eol
    else headers[0].0 + (":" + (layout.Space() + (headers[0].1 + (layout.eol + Block(headers[1..], layout)))))
  }

  /** A value right behind its colon must start like a name. */
  ghost predicate Tight(value: string) { value != "" ==> IsToken(value[0]) }

  ghost predicate Fit(headers: seq<Header>, layout: Layout) {
    layout.Valid() && ValidHeaders(headers) && (!layout.spaced ==> forall i | 0 <= i < |headers| :: Tight(headers[i].1))
  }

  // ----------------------------------------------------------------- lines

  /** The first character of a line end, behind any part that may end a line. */
  lemma LineEnds(cfg: Config, h: Head, c: char)
    requires c == '\r' || c == '\n'
    requires (h.phase.Minor? && cfg.isRequest) || h.phase in {UriStem, HeaderValue, SpaceBeforeValue, StatusCode, StatusMessage}
    ensures var r := HeadStep(cfg, h, c);
            r.HeadMore? && r.head == LineEnded(h, if c == '\r' then ExpectingNewline else ExpectingCr).(raw := r.head.raw)
  {
  }

  function LineEnded(h: Head, next: HeadPhase): Head {
    h.(phase := next,
       major := if h.phase.UriStem? then 0 else h.major, minor := if h.phase.UriStem? then 0 else h.minor,
       statusMessage := if h.phase.StatusCode? then "" else h.statusMessage,
       headers := if h.phase in {HeaderValue, SpaceBeforeValue} then h.headers + [(h.name, h.value)] else h.headers)
  }

  /** The second character of a line end. */
  lemma LineStarts(cfg: Config, h: Head, c: char)
    requires (h.phase.ExpectingNewline? && c == '\n') || (h.phase.ExpectingCr? && c == '\r')
    ensures var r := HeadStep(cfg, h, c); r.HeadMore? && r.head == h.(phase := HeaderStart, raw := r.head.raw)
  {
  }

  lemma EatEol(cfg: Config, h: Head, layout: Layout, more: string) returns (h1: Head)
    requires layout.Valid()
    requires (h.phase.Minor? && cfg.isRequest) || h.phase in {UriStem, HeaderValue, SpaceBeforeValue, StatusCode, StatusMessage}
    ensures HeadRun(cfg, h, layout.eol + more) == HeadRun(cfg, h1, more)
    ensures h1 == LineEnded(h, layout.Start()).(raw := h1.raw)
  {
    hide HeadRun, HeadStep;
    var rest := layout.eol[1..] + more;
    assert layout.eol + more == [layout.eol[0]] + rest;
    LineEnds(cfg, h, layout.eol[0]);
    h1 := Eat(cfg, h, layout.eol[0], rest);
    if |layout.eol| == 2 {
      assert rest == [layout.eol[1]] + more;
      LineStarts(cfg, h1, layout.eol[1]);
      h1 := Eat(cfg, h1, layout.eol[1], more);
    } else {
      assert rest == more;
    }
  }

  /** The end of an empty line, which ends the header block. */
  lemma BlockEnds(cfg: Config, h: Head, c: char, rest: string) returns (h1: Head)
    requires c == '\r' || c == '\n'
    requires h.phase == (if c == '\r' then ExpectingNewline else ExpectingCr)
          || h.phase == if c == '\r' then ExpectingFinalCr else ExpectingFinalNewline
    ensures HeadRun(cfg, h, [c] + rest) == HeadComplete(h1, rest)
    ensures SameLine(h, h1) && h1.headers == h.headers
  {
    assert ([c] + rest)[1..] == rest;
    h1 := HeadStep(cfg, h, c).head;
  }

  /** The empty line may end in a single character, if that of the other kind does not follow;
      the character behind it is left. */
  lemma ShortLineEndsBlock(cfg: Config, h: Head, c: char, rest: string) returns (h1: Head)
    requires h.phase.HeaderStart? && (c == '\r' || c == '\n') && rest != "" && rest[0] != (if c == '\r' then '\n' else '\r')
    ensures HeadRun(cfg, h, [c] + rest) == HeadComplete(h1, rest)
    ensures SameLine(h, h1) && h1.headers == h.headers
  {
    hide RequestLineStep, VersionStep, StatusLineStep, NameStart, AddHeader;
    h1 := Eat(cfg, h, c, rest);
    h1 := HeadStep(cfg, h1, rest[0]).head;
  }

  lemma EatLastEol(cfg: Config, h: Head, layout: Layout, rest: string) returns (h1: Head)
    requires layout.Valid() && h.phase == layout.Start()
    ensures HeadRun(cfg, h, layout.eol + rest) == HeadComplete(h1, rest)
    ensures SameLine(h, h1) && h1.headers == h.headers
  {
    hide HeadRun;
    if |layout.eol| == 2 {
      var more := [layout.eol[1]] + rest;
      assert layout.eol + rest == [layout.eol[0]] + more;
      h1 := Eat(cfg, h, layout.eol[0], more);
      h1 := BlockEnds(cfg, h1, layout.eol[1], rest);
    } else {
      assert layout.eol + rest == [layout.eol[0]] + rest;
      h1 := BlockEnds(cfg, h, layout.eol[0], rest);
    }
  }

  lemma ValueStarts(cfg: Config, h: Head, c: char)
    requires h.phase.SpaceBeforeValue? && (c == ' ' || IsToken(c))
    ensures var r := HeadStep(cfg, h, c);
            r.HeadMore? && r.head == h.(phase := HeaderValue, value := if c == ' ' then h.value else h.value + [c], raw := r.head.raw)
  {
  }

  /** The value up to the end of its line, with or without a space before it. */
  lemma ReadToLineEnd(cfg: Config, h: Head, value: string, layout: Layout, more: string) returns (h1: Head)
    requires h.phase.SpaceBeforeValue? && h.value == "" && ValidValue(value) && (!layout.spaced ==> Tight(value))
    ensures HeadRun(cfg, h, layout.Space() + (value + more)) == HeadRun(cfg, h1, more)
    ensures h1 == h.(phase := h1.phase, value := value, raw := h1.raw) && h1.phase in {HeaderValue, SpaceBeforeValue}
  {
    hide HeadRun, HeadStep;
    h1 := h;
    if layout.spaced {
      ValueStarts(cfg, h, ' ');
      h1 := Eat(cfg, h, ' ', value + more);
      h1 := ReadValue(cfg, h1, value, more);
      assert "" + value == value;
    } else if value == "" {
      assert "" + (value + more) == more;
    } else {
      assert "" + (value + more) == [value[0]] + (value[1..] + more);
      assert value[0] in value && forall c <- value[1..] :: c in value;
      ValueStarts(cfg, h, value[0]);
      h1 := Eat(cfg, h, value[0], value[1..] + more);
      assert h1.value == [value[0]];
      h1 := ReadValue(cfg, h1, value[1..], more);
      assert [value[0]] + value[1..] == value;
    }
  }

  lemma ReadLaidOutValue(cfg: Config, h: Head, value: string, layout: Layout, more: string) returns (h1: Head)
    requires h.phase.SpaceBeforeValue? && h.value == "" && layout.Valid() && ValidValue(value) && (!layout.spaced ==> Tight(value))
    ensures HeadRun(cfg, h, layout.Space() + (value + (layout.eol + more))) == HeadRun(cfg, h1, more)
    ensures h1.phase == layout.Start() && SameLine(h, h1) && h1.headers == h.headers + [(h.name, value)]
  {
    hide HeadRun, HeadStep;
    h1 := ReadToLineEnd(cfg, h, value, layout, layout.eol + more);
    h1 := EatEol(cfg, h1, layout, more);
  }

  lemma ReadLaidOutHeader(cfg: Config, h: Head, name: string, value: string, layout: Layout, more: string) returns (h1: Head)
    requires layout.Valid() && h.phase == layout.Start() && ValidName(name) && ValidValue(value) && (!layout.spaced ==> Tight(value))
    ensures HeadRun(cfg, h, name + (":" + (layout.Space() + (value + (layout.eol + more))))) == HeadRun(cfg, h1, more)
    ensures h1.phase == layout.Start() && SameLine(h, h1) && h1.headers == h.headers + [(name, value)]
  {
    hide HeadRun, ValidName;
    var more1 := layout.Space() + (value + (layout.eol + more));
    h1 := ReadWholeName(cfg, h, name, ":" + more1);
    assert ":" + more1 == [':'] + more1;
    h1 := Eat(cfg, h1, ':', more1);
    h1 := ReadLaidOutValue(cfg, h1, value, layout, more);
  }

  lemma BlockStarts(headers: seq<Header>, layout: Layout, rest: string)
    requires headers != []
    ensures Block(headers, layout) + rest ==
            headers[0].0 + (":" + (layout.Space() + (headers[0].1 + (layout.eol + (Block(headers[1..], layout) + rest)))))
  {
    var (a, b, c) := (layout.Space(), headers[0].1, Block(headers[1..], layout));
    assert layout.eol + c + rest == layout.eol + (c + rest);
    assert b + (layout.eol + c) + rest == b + (layout.eol + c + rest);
    assert a + (b + (layout.eol + c)) + rest == a + (b + (layout.eol + c) + rest);
    assert ":" + (a + (b + (layout.eol + c))) + rest == ":" + (a + (b + (layout.eol + c)) + rest);
  }

  /** A header block in any layout is read header by header, up to its last byte. */
  lemma {:induction false} ReadBlock(cfg: Config, h: Head, headers: seq<Header>, layout: Layout, rest: string) returns (h1: Head)
    requires h.phase == layout.Start() && Fit(headers, layout)
    ensures HeadRun(cfg, h, Block(headers, layout) + rest) == HeadComplete(h1, rest)
    ensures SameLine(h, h1) && h1.headers == h.headers + headers
    decreases |headers|
  {
    hide HeadRun, ValidName, ValidValue, Tight;
    if headers == [] {
      h1 := EatLastEol(cfg, h, layout, rest);
    } else {
      var more := Block(headers[1..], layout) + rest;
      var (name, value) := headers[0];
      BlockStarts(headers, layout, rest);
      h1 := ReadLaidOutHeader(cfg, h, name, value, layout, more);
      h1 := ReadBlock(cfg, h1, headers[1..], layout, rest);
      assert h.headers + headers == h.headers + [headers[0]] + headers[1..];
    }
  }

  // -------------------------------------------------------------- requests

  /** The request line up to its end; a request without a version has no query. */
  function Target(r: Request, layout: Layout): string {
    r.verb + (" " + (r.resource + ((if r.query == "" then "" else "?" + r.query)
                     + PrintedVersion(r, layout))))
  }

  function PrintedVersion(r: Request, layout: Layout): string {
    if layout.versioned then " " + (PrintVersion(r.major, r.minor) + layout.padding) else ""
  }

  function PrintIn(r: Request, layout: Layout): string {
    layout.blanks + (Target(r, layout) + (layout.eol + (Block(r.headers + r.body.Framing(), layout) + r.body.Print())))
  }

  ghost predicate RequestFits(r: Request, layout: Layout) {
    && Canonical(r) && Fit(r.headers, layout)
    && (!layout.versioned ==> r.query == "" && r.major == r.minor == 0)
  }

  lemma TargetStarts(r: Request, layout: Layout, more: string)
    ensures Target(r, layout) + more ==
            r.verb + (" " + (r.resource + ((if r.query == "" then "" else "?" + r.query)
                             + (PrintedVersion(r, layout) + more))))
  {
    hide PrintVersion, PrintedVersion;
    var a := if r.query == "" then "" else "?" + r.query;
    var v := PrintedVersion(r, layout);
    assert a + v + more == a + (v + more);
    assert r.resource + (a + v) + more == r.resource + (a + v + more);
    assert " " + (r.resource + (a + v)) + more == " " + (r.resource + (a + v) + more);
  }

  lemma {:induction false} SkipBlanks(cfg: Config, h: Head, blanks: string, more: string) returns (h1: Head)
    requires h.phase.MethodStart? && forall c <- blanks :: c == ' ' || c == '\r' || c == '\n'
    ensures HeadRun(cfg, h, blanks + more) == HeadRun(cfg, h1, more) && h1 == h.(raw := h1.raw)
    decreases |blanks|
  {
    hide HeadRun;
    h1 := h;
    if blanks == "" {
      assert blanks + more == more;
    } else {
      assert blanks[0] in blanks && forall c <- blanks[1..] :: c in blanks;
      assert blanks + more == [blanks[0]] + (blanks[1..] + more);
      h1 := Eat(cfg, h, blanks[0], blanks[1..] + more);
      h1 := SkipBlanks(cfg, h1, blanks[1..], more);
    }
  }

  lemma {:induction false} SkipPadding(cfg: Config, h: Head, padding: string, more: string) returns (h1: Head)
    requires h.phase.Minor? && cfg.isRequest && forall c <- padding :: c == ' '
    ensures HeadRun(cfg, h, padding + more) == HeadRun(cfg, h1, more) && h1 == h.(raw := h1.raw)
    decreases |padding|
  {
    hide HeadRun;
    h1 := h;
    if padding == "" {
      assert padding + more == more;
    } else {
      assert padding[0] in padding && forall c <- padding[1..] :: c in padding;
      assert padding + more == [' '] + (padding[1..] + more);
      h1 := Eat(cfg, h, ' ', padding[1..] + more);
      h1 := SkipPadding(cfg, h1, padding[1..], more);
    }
  }

  lemma ReadLine(cfg: Config, h: Head, r: Request, layout: Layout, more: string) returns (h1: Head)
    requires RequestFits(r, layout) && cfg.isRequest && h == InitHead(true).(raw := h.raw)
    ensures HeadRun(cfg, h, Target(r, layout) + (layout.eol + more)) == HeadRun(cfg, h1, more)
    ensures h1.phase == layout.Start() && h1.headers == [] && h1.major == r.major && h1.minor == r.minor
    ensures h1.verb == r.verb && h1.resource == r.resource && h1.query == r.query
  {
    hide HeadRun, PlainHeaders, PrintVersion, Fit, StatusLineStep, FieldStep, VersionStep;
    LayoutIsValid(r, layout);
    var more1 := layout.eol + more;
    var m3 := PrintedVersion(r, layout) + more1;
    TargetStarts(r, layout, more1);
    h1 := ReadTarget(cfg, h, r, m3);
    if layout.versioned {
      var m4 := PrintVersion(r.major, r.minor) + (layout.padding + more1);
      assert m3 == [' '] + m4;
      h1 := Eat(cfg, h1, ' ', m4);
      h1 := ReadVersion(cfg, h1, r.major, r.minor, layout.padding + more1);
      h1 := SkipPadding(cfg, h1, layout.padding, more1);
    } else {
      assert m3 == more1;
    }
    h1 := EatEol(cfg, h1, layout, more);
  }

  lemma LayoutIsValid(r: Request, layout: Layout)
    requires RequestFits(r, layout)
    ensures layout.Valid()
  {
  }

  /** The headers that announce a body fit any layout. */
  lemma FramingFits(headers: seq<Header>, body: Body, layout: Layout)
    requires Fit(headers, layout) && body.Valid()
    ensures Fit(headers + body.Framing(), layout)
  {
    hide ValidHeaders, PrintDec;
    FramingValid(headers, body);
    if body.Sized? {
      var n := PrintDec(|body.data|);
      assert n[0] in n && IsDigit(n[0]);
      assert Tight(n);
    }
    assert Tight("chunked");
  }

  /** A request in any layout is read as the request that it is, up to its last byte. */
  lemma RequestInAnyLayout(cfg: Config, r: Request, layout: Layout, rest: string)
    requires RequestFits(r, layout) && cfg.isRequest && !cfg.headersOnly
    ensures var v := Run(cfg, Init(cfg, ""), PrintIn(r, layout) + rest);
            v.Complete? && v.rest == rest && Carries(cfg, v.state, r)
  {
    hide Run, FinishHeaders, HoldsBody;
    var (s, more, input) := (Init(cfg, ""), r.body.Print() + rest, PrintIn(r, layout) + rest);
    var h := ReadLaidOutRequest(cfg, r, layout, rest);
    RunHead(cfg, s, input);
    BodyReadsBack(cfg, Count(s.(phase := Headers, head := h), |input| - |more|), r.headers, r.body, rest);
  }

  lemma ReadLaidOutRequest(cfg: Config, r: Request, layout: Layout, rest: string) returns (h: Head)
    requires RequestFits(r, layout) && cfg.isRequest
    ensures |r.body.Print() + rest| < |PrintIn(r, layout) + rest|
    ensures HeadRun(cfg, InitHead(true), PrintIn(r, layout) + rest) == HeadComplete(h, r.body.Print() + rest)
    ensures h.headers == r.headers + r.body.Framing() && h.major == r.major && h.minor == r.minor
    ensures h.verb == r.verb && h.resource == r.resource && h.query == r.query
  {
    hide HeadRun, Block, Fit, Target;
    var headers := r.headers + r.body.Framing();
    var (block, more) := (Block(headers, layout), r.body.Print() + rest);
    LayoutIsValid(r, layout);
    FramingFits(r.headers, r.body, layout);
    assert block + r.body.Print() + rest == block + more;
    assert PrintIn(r, layout) + rest == layout.blanks + (Target(r, layout) + (layout.eol + (block + more)));
    h := SkipBlanks(cfg, InitHead(true), layout.blanks, Target(r, layout) + (layout.eol + (block + more)));
    h := ReadLine(cfg, h, r, layout, block + more);
    h := ReadBlock(cfg, h, headers, layout, more);
    assert [] + headers == headers;
  }

  // ------------------------------------------------------------- responses

  /** The space before an empty text is optional. */
  function StatusText(r: Response, layout: Layout): string {
    if r.text == "" && !layout.spaced then "" else " " + r.text
  }

  function PrintResponseIn(r: Response, layout: Layout): string {
    PrintVersion(r.major, r.minor) + (" " + (PrintDec(r.status) + (StatusText(r, layout)
      + (layout.eol + (Block(r.headers + r.body.Framing(), layout) + r.body.Print())))))
  }

  lemma ReadCodeDigits(cfg: Config, h: Head, status: nat, more: string) returns (h1: Head)
    requires h.phase.StatusCodeStart?
    ensures HeadRun(cfg, h, PrintDec(status) + more) == HeadRun(cfg, h1, more)
    ensures h1 == h.(phase := StatusCode, statusCode := status % VERSION_LIMIT, raw := h1.raw)
  {
    hide HeadRun, PrintDec, TakeDigits;
    var digits := PrintDec(status);
    PrintedDigits(status);
    assert digits + more == [digits[0]] + (digits[1..] + more);
    h1 := Eat(cfg, h, digits[0], digits[1..] + more);
    h1 := ReadStatusDigits(cfg, h1, digits[1..], more);
  }

  lemma ReadStatusText(cfg: Config, h: Head, r: Response, layout: Layout, more: string) returns (h1: Head)
    requires h.phase.StatusCode? && h.statusMessage == "" && ValidText(r.text) && layout.Valid()
    ensures HeadRun(cfg, h, StatusText(r, layout) + (layout.eol + more)) == HeadRun(cfg, h1, more)
    ensures h1 == h.(phase := layout.Start(), statusMessage := r.text, raw := h1.raw)
  {
    hide HeadRun;
    var more1 := layout.eol + more;
    h1 := h;
    if r.text == "" && !layout.spaced {
      assert "" + more1 == more1;
    } else {
      assert StatusText(r, layout) + more1 == [' '] + (r.text + more1);
      h1 := Eat(cfg, h, ' ', r.text + more1);
      h1 := ReadText(cfg, h1, r.text, more1);
      assert "" + r.text == r.text;
    }
    h1 := EatEol(cfg, h1, layout, more);
  }

  lemma ReadLaidOutStatus(cfg: Config, r: Response, layout: Layout, more: string) returns (h1: Head)
    requires !cfg.isRequest && CanonicalResponse(r) && layout.Valid()
    ensures HeadRun(cfg, InitHead(false), PrintVersion(r.major, r.minor) + (" " + (PrintDec(r.status)
                    + (StatusText(r, layout) + (layout.eol + more))))) == HeadRun(cfg, h1, more)
    ensures h1.phase == layout.Start() && h1.headers == [] && h1.statusMessage == r.text && h1.statusCode == r.status
    ensures h1.major == r.major && h1.minor == r.minor
  {
    hide HeadRun, PrintDec, PrintVersion, StatusText;
    CanonicalResponseParts(r);
    var m2 := StatusText(r, layout) + (layout.eol + more);
    var m1 := PrintDec(r.status) + m2;
    h1 := ReadVersion(cfg, InitHead(false), r.major, r.minor, " " + m1);
    assert " " + m1 == [' '] + m1;
    h1 := Eat(cfg, h1, ' ', m1);
    h1 := ReadCodeDigits(cfg, h1, r.status, m2);
    h1 := ReadStatusText(cfg, h1, r, layout, more);
  }

  lemma PrintedIn(r: Response, layout: Layout, rest: string)
    ensures PrintResponseIn(r, layout) + rest ==
            PrintVersion(r.major, r.minor) + (" " + (PrintDec(r.status) + (StatusText(r, layout)
              + (layout.eol + (Block(r.headers + r.body.Framing(), layout) + (r.body.Print() + rest))))))
  {
    hide PrintVersion, PrintDec, StatusText, Block;
    var (d, t, b, p) := (PrintDec(r.status), StatusText(r, layout), Block(r.headers + r.body.Framing(), layout), r.body.Print());
    assert layout.eol + (b + p) + rest == layout.eol + (b + (p + rest));
    assert t + (layout.eol + (b + p)) + rest == t + (layout.eol + (b + p) + rest);
    assert d + (t + (layout.eol + (b + p))) + rest == d + (t + (layout.eol + (b + p)) + rest);
    assert " " + (d + (t + (layout.eol + (b + p)))) + rest == " " + (d + (t + (layout.eol + (b + p))) + rest);
  }

  /** A response in any layout is read as the response that it is. */
  lemma ResponseInAnyLayout(cfg: Config, requestMethod: string, r: Response, layout: Layout, rest: string)
    requires !cfg.isRequest && !cfg.headersOnly && CanonicalResponse(r) && Fit(r.headers, layout)
    ensures ReadsAs(cfg, requestMethod, Run(cfg, Init(cfg, requestMethod), PrintResponseIn(r, layout) + rest), r, rest)
  {
    hide Run, HeadRun, FinishHeaders, AfterFinish, Block, Fit, PrintVersion, PrintDec, StatusText, ReadsAs, CanonicalResponse;
    var headers := r.headers + r.body.Framing();
    var (s, more, input) := (Init(cfg, requestMethod), r.body.Print() + rest, PrintResponseIn(r, layout) + rest);
    CanonicalResponseParts(r);
    FitIsValid(r.headers, layout);
    FramingFits(r.headers, r.body, layout);
    PrintedIn(r, layout, rest);
    var h := ReadLaidOutStatus(cfg, r, layout, Block(headers, layout) + more);
    h := ReadBlock(cfg, h, headers, layout, more);
    assert [] + headers == headers;
    RunHead(cfg, s, input);
    HeadReadsAs(cfg, requestMethod, r, Count(s.(phase := Headers, head := h), |input| - |more|), Run(cfg, s, input), rest);
  }

  lemma FitIsValid(headers: seq<Header>, layout: Layout)
    requires Fit(headers, layout)
    ensures layout.Valid()
  {
  }

  // ---------------------------------------------------------------- chunks

  /** A chunk with its size in hexadecimal digits of either case, with leading zeros or not,
      and with white space around it. */
  datatype ChunkText = ChunkText(before: string, digits: string, after: string, data: string)
  {
    function SizeLine(): string { before + (digits + (after + CRLF)) }

    ghost predicate Valid() {
      && (forall c <- before :: c in " \t\r\n") && (forall c <- after :: c in " \t")
      && digits != "" && (forall c <- digits :: IsHexDigit(c)) && HexValue(digits) == |data| <= LONG_MAX
    }
  }

  /** Chunks of data, then the one that ends the body. */
  function PrintAnyChunks(chunks: seq<ChunkText>, last: ChunkText): string {
    if chunks == [] then last.SizeLine() + CRLF
    else chunks[0].SizeLine() + (chunks[0].data + (CRLF + PrintAnyChunks(chunks[1..], last)))
  }

  function DataOf(chunks: seq<ChunkText>): string {
    if chunks == [] then "" else chunks[0].data + DataOf(chunks[1..])
  }

  lemma {:induction false} SkipBefore(cap: nat, k: Chunk, blanks: string, more: string)
    requires k.phase.SizeStart? && forall c <- blanks :: c in " \t\r\n"
    ensures ChunkRun(cap, k, blanks + more) == ChunkRun(cap, k, more)
    decreases |blanks|
  {
    hide ChunkRun;
    if blanks == "" {
      assert blanks + more == more;
    } else {
      assert blanks[0] in blanks && forall c <- blanks[1..] :: c in blanks;
      assert blanks + more == [blanks[0]] + (blanks[1..] + more);
      var k1 := EatChunkByte(cap, k, blanks[0], blanks[1..] + more);
      SkipBefore(cap, k, blanks[1..], more);
    }
  }

  lemma {:induction false} SkipAfter(cap: nat, k: Chunk, blanks: string, more: string) returns (k1: Chunk)
    requires k.phase in {Size, CrAfterSize} && forall c <- blanks :: c in " \t"
    ensures ChunkRun(cap, k, blanks + more) == ChunkRun(cap, k1, more)
    ensures k1 == k.(phase := k1.phase) && k1.phase in {Size, CrAfterSize}
    decreases |blanks|
  {
    hide ChunkRun;
    if blanks == "" {
      assert blanks + more == more;
      k1 := k;
    } else {
      assert blanks[0] in blanks && forall c <- blanks[1..] :: c in blanks;
      assert blanks + more == [blanks[0]] + (blanks[1..] + more);
      k1 := EatChunkByte(cap, k, blanks[0], blanks[1..] + more);
      k1 := SkipAfter(cap, k1, blanks[1..], more);
    }
  }

  lemma AllHexParses(digits: string)
    requires (forall c <- digits :: IsHexDigit(c)) && HexValue(digits) <= LONG_MAX
    ensures StrToLong16(digits) == HexValue(digits)
  {
    assert HexPrefix(digits) == digits;
  }

  lemma ReadSizeLine(cap: nat, k: Chunk, t: ChunkText, more: string) returns (k1: Chunk)
    requires k.phase.SizeStart? && t.Valid()
    ensures ChunkRun(cap, k, t.SizeLine() + more) == ChunkRun(cap, k1, more)
    ensures k1.size == |t.data| && k1.read == 0 && k1.cache == k.cache
    ensures k1.phase == if |t.data| == 0 then FinalCr else InChunk
  {
    hide ChunkRun, StrToLong16, HexValue;
    var (text, m2) := (t.digits, CRLF + more);
    var m1 := t.after + m2;
    assert t.SizeLine() + more == t.before + (text + m1);
    SkipBefore(cap, k, t.before, text + m1);
    AllHexParses(text);
    assert IsHexDigit(text[0]) && forall c <- text[1..] :: c in text;
    assert text + m1 == [text[0]] + (text[1..] + m1);
    k1 := EatChunkByte(cap, k, text[0], text[1..] + m1);
    k1 := ReadSizeDigits(cap, k1, text[1..], m1);
    assert k1.sizeText == text;
    k1 := SkipAfter(cap, k1, t.after, m2);
    assert m2 == ['\r'] + (['\n'] + more);
    k1 := EatChunkByte(cap, k1, '\r', ['\n'] + more);
    k1 := EatChunkByte(cap, k1, '\n', more);
  }

  lemma ReadAnyChunk(cap: nat, k: Chunk, t: ChunkText, more: string) returns (k1: Chunk)
    requires k.phase.SizeStart? && t.Valid() && t.data != ""
    ensures ChunkRun(cap, k, t.SizeLine() + (t.data + (CRLF + more))) == ChunkRun(cap, k1, more)
    ensures k1.phase.SizeStart? && k1.cache == CachedAll(cap, k.cache, t.data)
  {
    hide ChunkRun;
    var m := CRLF + more;
    k1 := ReadSizeLine(cap, k, t, t.data + m);
    k1 := ReadChunkData(cap, k1, t.data, m);
    assert m == ['\r'] + (['\n'] + more);
    k1 := EatChunkByte(cap, k1, '\r', ['\n'] + more);
    k1 := EatChunkByte(cap, k1, '\n', more);
  }

  /** However its sizes are written, a chunked body gives its data, up to the cap, and is
      read up to its last byte. */
  lemma {:induction false} AnyChunksReadBack(cap: nat, k: Chunk, chunks: seq<ChunkText>, last: ChunkText, rest: string) returns (k1: Chunk)
    requires k.phase.SizeStart? && last.Valid() && last.data == ""
    requires forall i | 0 <= i < |chunks| :: chunks[i].Valid() && chunks[i].data != ""
    ensures ChunkRun(cap, k, PrintAnyChunks(chunks, last) + rest) == ChunksComplete(k1, rest)
    ensures k1.cache == CachedAll(cap, k.cache, DataOf(chunks))
    decreases |chunks|
  {
    if chunks == [] {
      var m := ['\n'] + rest;
      assert PrintAnyChunks(chunks, last) + rest == last.SizeLine() + (['\r'] + m);
      k1 := ReadSizeLine(cap, k, last, ['\r'] + m);
      k1 := EatChunkByte(cap, k1, '\r', m);
      assert m[1..] == rest;
      assert CachedAll(cap, k.cache, "") == k.cache;
    } else {
      hide ChunkRun;
      var (t, more) := (chunks[0], PrintAnyChunks(chunks[1..], last) + rest);
      assert PrintAnyChunks(chunks, last) + rest == t.SizeLine() + (t.data + (CRLF + more));
      k1 := ReadAnyChunk(cap, k, t, more);
      CachedAllConcat(cap, k.cache, t.data, DataOf(chunks[1..]));
      k1 := AnyChunksReadBack(cap, k1, chunks[1..], last, rest);
    }
  }
}
