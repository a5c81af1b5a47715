/** Printed responses of any status, and the proof that a client's parser reads them back:
    the status line, the headers, and the body or its absence. */
module HttpResponses {
  import opened HttpTypes
  import opened HttpMachine
  import opened HttpRuns
  import opened HttpScans
  import opened HttpReader
  import opened HttpCanonical

  datatype Response = Response(major: nat, minor: nat, status: nat, text: string, headers: seq<Header>, body: Body)
  {
    function PrintLine(): string {
      PrintVersion(major, minor) + (" " + (PrintDec(status) + (" " + (text + CRLF))))
    }

    function Print(): string {
      PrintLine() + (PrintHeaders(headers + body.Framing()) + body.Print())
    }
  }

  ghost predicate ValidText(text: string) {
    |text| <= STATUS_MESSAGE_MAX && forall c <- text :: !IsControl(c)
  }

  ghost predicate CanonicalResponse(r: Response) {
    && r.major < VERSION_LIMIT && r.minor < VERSION_LIMIT && r.status < VERSION_LIMIT
    && ValidText(r.text) && PlainHeaders(r.headers) && r.body.Valid()
  }

  // ------------------------------------------------------------ the status line

  lemma {:induction false} ReadStatusDigits(cfg: Config, h: Head, digits: string, more: string) returns (h1: Head)
    requires h.phase.StatusCode? && forall c <- digits :: IsDigit(c)
    ensures HeadRun(cfg, h, digits + more) == HeadRun(cfg, h1, more)
    ensures h1 == h.(statusCode := TakeDigits(h.statusCode, digits), raw := h1.raw)
    decreases |digits|
  {
    hide HeadRun;
    if digits == "" {
      assert digits + more == more;
      h1 := h;
    } else {
      assert digits + more == [digits[0]] + (digits[1..] + more);
      assert IsDigit(digits[0]);
      h1 := Eat(cfg, h, digits[0], digits[1..] + more);
      h1 := ReadStatusDigits(cfg, h1, digits[1..], more);
    }
  }

  lemma {:induction false} ReadText(cfg: Config, h: Head, text: string, more: string) returns (h1: Head)
    requires h.phase.StatusMessage? && |h.statusMessage| + |text| <= STATUS_MESSAGE_MAX && forall c <- text :: !IsControl(c)
    ensures HeadRun(cfg, h, text + more) == HeadRun(cfg, h1, more)
    ensures h1 == h.(statusMessage := h.statusMessage + text, raw := h1.raw)
    decreases |text|
  {
    hide HeadRun;
    if text == "" {
      assert text + more == more && h.statusMessage + "" == h.statusMessage;
      h1 := h;
    } else {
      assert text + more == [text[0]] + (text[1..] + more);
      assert text[0] in text && forall c <- text[1..] :: c in text;
      h1 := Eat(cfg, h, text[0], text[1..] + more);
      h1 := ReadText(cfg, h1, text[1..], more);
      assert h.statusMessage + text == h.statusMessage + [text[0]] + text[1..];
    }
  }

  lemma ReadStatusCode(cfg: Config, h: Head, status: nat, more: string) returns (h1: Head)
    requires h.phase.StatusCodeStart?
    ensures HeadRun(cfg, h, PrintDec(status) + (" " + more)) == HeadRun(cfg, h1, more)
    ensures h1 == h.(phase := StatusMessage, statusCode := status % VERSION_LIMIT, statusMessage := "", raw := h1.raw)
  {
    hide HeadRun, PrintDec, TakeDigits;
    var digits := PrintDec(status);
    PrintedDigits(status);
    assert digits + (" " + more) == [digits[0]] + (digits[1..] + (" " + more));
    h1 := Eat(cfg, h, digits[0], digits[1..] + (" " + more));
    h1 := ReadStatusDigits(cfg, h1, digits[1..], " " + more);
    assert " " + more == [' '] + more;
    h1 := Eat(cfg, h1, ' ', more);
  }

  /** Every status line is read back: its version, its status and its text, with the
      numbers as far as 16 bits hold them. */
  lemma ReadStatusLine(cfg: Config, r: Response, more: string) returns (h1: Head)
    requires !cfg.isRequest && ValidText(r.text)
    ensures HeadRun(cfg, InitHead(false), r.PrintLine() + more) == HeadRun(cfg, h1, more)
    ensures h1.phase.HeaderStart? && h1.headers == [] && h1.statusMessage == r.text
    ensures h1.statusCode == r.status % VERSION_LIMIT
    ensures h1.major == r.major % VERSION_LIMIT && h1.minor == r.minor % VERSION_LIMIT
  {
    hide HeadRun, PrintDec, PrintVersion;
    var m3 := CRLF + more;
    var m2 := r.text + m3;
    var m1 := PrintDec(r.status) + (" " + m2);
    assert r.PrintLine() + more == PrintVersion(r.major, r.minor) + (" " + m1) by {
      StatusLineParts(r, more);
    }
    h1 := ReadVersion(cfg, InitHead(false), r.major, r.minor, " " + m1);
    assert " " + m1 == [' '] + m1;
    h1 := Eat(cfg, h1, ' ', m1);
    h1 := ReadStatusCode(cfg, h1, r.status, m2);
    h1 := ReadText(cfg, h1, r.text, m3);
    assert "" + r.text == r.text;
    h1 := EatCrlf(cfg, h1, more);
  }

  lemma StatusLineParts(r: Response, more: string)
    ensures r.PrintLine() + more ==
            PrintVersion(r.major, r.minor) + (" " + (PrintDec(r.status) + (" " + (r.text + (CRLF + more)))))
  {
    hide PrintVersion, PrintDec;
    var d := PrintDec(r.status);
    assert r.text + CRLF + more == r.text + (CRLF + more);
    assert " " + (r.text + CRLF) + more == " " + (r.text + CRLF + more);
    assert d + (" " + (r.text + CRLF)) + more == d + (" " + (r.text + CRLF) + more);
    assert " " + (d + (" " + (r.text + CRLF))) + more == " " + (d + (" " + (r.text + CRLF)) + more);
  }

  /** The header block of a response, read by a client's parser. */
  lemma ReadResponseHead(cfg: Config, requestMethod: string, r: Response, rest: string) returns (s1: State)
    requires !cfg.isRequest && CanonicalResponse(r)
    ensures Agrees(AfterFinish(cfg, FinishHeaders(cfg, s1), r.body.Print() + rest), Run(cfg, Init(cfg, requestMethod), r.Print() + rest))
    ensures s1 == Init(cfg, requestMethod).(phase := Headers, head := s1.head, totalRead := s1.totalRead)
    ensures s1.head.headers == r.headers + r.body.Framing() && s1.head.statusCode == r.status && s1.head.statusMessage == r.text
    ensures s1.head.major == r.major && s1.head.minor == r.minor
  {
    hide Run, HeadRun, FinishHeaders, PrintHeaders, ValidHeaders;
    CanonicalResponseParts(r);
    var (headers, more) := (r.headers + r.body.Framing(), r.body.Print() + rest);
    var (s, input) := (Init(cfg, requestMethod), r.Print() + rest);
    FramingValid(r.headers, r.body);
    assert input == r.PrintLine() + (PrintHeaders(headers) + more);
    var h := ReadStatusLine(cfg, r, PrintHeaders(headers) + more);
    h := ReadHeaders(cfg, h, headers, more);
    assert [] + headers == headers;
    RunHead(cfg, s, input);
    s1 := Count(s.(phase := Headers, head := h), |input| - |more|);
  }

  lemma CanonicalResponseParts(r: Response)
    requires CanonicalResponse(r)
    ensures ValidHeaders(r.headers) && r.body.Valid() && ValidText(r.text)
    ensures r.status % VERSION_LIMIT == r.status && r.major % VERSION_LIMIT == r.major && r.minor % VERSION_LIMIT == r.minor
  {
  }

  // ------------------------------------------------------------------- the body

  /** Responses that never have a body unless it comes in chunks. */
  ghost predicate NeverHasBody(requestMethod: string, status: nat) {
    requestMethod == "HEAD" || status / 100 == 1 || status in {204, 205, 304}
  }

  ghost predicate CarriesResponse(s: State, r: Response) {
    && s.msg.statusCode == r.status && s.msg.statusMessage == r.text
    && s.head.headers == r.headers + r.body.Framing() && s.head.major == r.major && s.head.minor == r.minor
  }

  ghost predicate HoldsText(cfg: Config, m: Message, text: string) {
    && m.isValid && m.status == Ok && m.content == text[..Min(|text|, cfg.cap)] && m.contentLength == |m.content|
  }

  /** What a client's parser makes of a printed response with anything behind it. */
  ghost predicate ReadsAs(cfg: Config, requestMethod: string, v: Verdict, r: Response, rest: string) {
    if r.body.Chunked? || (r.body.Sized? && !NeverHasBody(requestMethod, r.status)) then
      v.Complete? && v.rest == rest && CarriesResponse(v.state, r) && HoldsText(cfg, v.state.msg, r.body.Data())
    else if NeverHasBody(requestMethod, r.status) then
      v.Complete? && v.rest == r.body.Print() + rest && CarriesResponse(v.state, r) && HoldsText(cfg, v.state.msg, "")
    else
      && v.Undecided? && v.state.phase.ContentNoLength? && CarriesResponse(v.state, r)
      && CarriesResponse(AtEof(cfg, v.state), r) && HoldsText(cfg, AtEof(cfg, v.state).msg, rest)
  }

  lemma ImpliedExactlyWhen(cfg: Config, m: Message)
    requires !cfg.isRequest
    ensures LengthImplied(cfg, m) <==> NeverHasBody(m.requestMethod, m.statusCode)
  {
  }

  lemma FramedReadsBack(cfg: Config, s: State, r: Response, rest: string)
    requires HeadersRead(cfg, s, r.headers, r.body) && r.body.Sized?
    ensures BodyArrives(cfg, s, r.body, rest)
  {
    SizedReadsBack(cfg, s, r.headers, r.body, rest);
  }

  lemma ChunksNeedNoLength(cfg: Config, s: State, r: Response, rest: string)
    requires !cfg.isRequest && !cfg.headersOnly && CanonicalResponse(r) && r.body.Chunked?
    requires s.phase.Headers? && s.head.headers == r.headers + r.body.Framing() && s.chunk == INIT_CHUNK && !s.msg.missing
    ensures BodyArrives(cfg, s, r.body, rest)
  {
    hide Run, ContentLengthOf, FindHeader;
    FramingFound(r.headers, r.body);
    var (f, chunks) := (FinishHeaders(cfg, s), r.body.chunks);
    var k := ReadChunks(cfg.cap, f.state.chunk, chunks, rest);
    RunChunks(cfg, f.state, PrintChunks(chunks) + rest);
    assert "" + Fitting(cfg.cap, 0, Flatten(chunks)) == Flatten(chunks)[..Min(|Flatten(chunks)|, cfg.cap)];
  }

  lemma NoBodyIsRead(cfg: Config, s: State, r: Response, input: string)
    requires !cfg.isRequest && CanonicalResponse(r) && !r.body.Chunked?
    requires s.phase.Headers? && s.head.headers == r.headers + r.body.Framing() && !s.msg.missing
    requires NeverHasBody(s.msg.requestMethod, s.head.statusCode)
    ensures var v := AfterFinish(cfg, FinishHeaders(cfg, s), input);
            && v.Complete? && v.rest == input && v.state.head == s.head && HoldsText(cfg, v.state.msg, "")
            && v.state.msg.statusCode == s.head.statusCode && v.state.msg.statusMessage == s.head.statusMessage
  {
    hide ContentLengthOf, FindHeader;
    FramingFound(r.headers, r.body);
    assert ""[..0] == "";
  }

  lemma LastsUntilClose(cfg: Config, s: State, r: Response, data: string)
    requires !cfg.isRequest && !cfg.headersOnly && CanonicalResponse(r) && r.body.NoBody?
    requires s.phase.Headers? && s.head.headers == r.headers + r.body.Framing() && s.chunk == INIT_CHUNK && !s.msg.missing
    requires !NeverHasBody(s.msg.requestMethod, s.head.statusCode)
    ensures var v := AfterFinish(cfg, FinishHeaders(cfg, s), data);
            && v.Undecided? && v.state.phase.ContentNoLength? && v.state.head == s.head && AtEof(cfg, v.state).head == s.head
            && HoldsText(cfg, AtEof(cfg, v.state).msg, data)
            && v.state.msg.statusCode == s.head.statusCode && v.state.msg.statusMessage == s.head.statusMessage
            && AtEof(cfg, v.state).msg.statusCode == s.head.statusCode && AtEof(cfg, v.state).msg.statusMessage == s.head.statusMessage
  {
    hide Run, ContentLengthOf, FindHeader;
    FramingFound(r.headers, r.body);
    RunNoLength(cfg, FinishHeaders(cfg, s).state, data);
    assert "" + Fitting(cfg.cap, 0, data) == data[..Min(|data|, cfg.cap)];
  }

  /** Once the header block is read, whatever it was printed as, the response is read as
      what it is. */
  lemma HeadReadsAs(cfg: Config, requestMethod: string, r: Response, s1: State, v: Verdict, rest: string)
    requires !cfg.isRequest && !cfg.headersOnly && CanonicalResponse(r)
    requires Agrees(AfterFinish(cfg, FinishHeaders(cfg, s1), r.body.Print() + rest), v)
    requires s1 == Init(cfg, requestMethod).(phase := Headers, head := s1.head, totalRead := s1.totalRead)
    requires s1.head.headers == r.headers + r.body.Framing() && s1.head.statusCode == r.status && s1.head.statusMessage == r.text
    requires s1.head.major == r.major && s1.head.minor == r.minor
    ensures ReadsAs(cfg, requestMethod, v, r, rest)
  {
    hide Run, HeadRun, FinishHeaders, AtEof, HoldsText, ValidText, PlainHeaders;
    var m := Publish(cfg, s1.msg, s1.head);
    ImpliedExactlyWhen(cfg, m);
    if r.body.Chunked? {
      ChunksNeedNoLength(cfg, s1, r, rest);
      BodyIsText(cfg, AfterFinish(cfg, FinishHeaders(cfg, s1), r.body.Print() + rest).state.msg, r.body);
    } else if NeverHasBody(requestMethod, r.status) {
      NoBodyIsRead(cfg, s1, r, r.body.Print() + rest);
    } else if r.body.Sized? {
      FramedReadsBack(cfg, s1, r, rest);
      BodyIsText(cfg, AfterFinish(cfg, FinishHeaders(cfg, s1), r.body.Print() + rest).state.msg, r.body);
    } else {
      assert r.body.Print() + rest == rest;
      LastsUntilClose(cfg, s1, r, rest);
    }
  }

  /** A printed response is read back with its version, status, text, headers and body, and
      reading stops exactly at its last byte; behind a response that never has a body, at
      the end of its headers; and without any length, where the connection closes. */
  lemma ResponseReadsBack(cfg: Config, requestMethod: string, r: Response, rest: string)
    requires !cfg.isRequest && !cfg.headersOnly && CanonicalResponse(r)
    ensures ReadsAs(cfg, requestMethod, Run(cfg, Init(cfg, requestMethod), r.Print() + rest), r, rest)
  {
    hide Run, AfterFinish, FinishHeaders, CanonicalResponse, ReadsAs;
    var s1 := ReadResponseHead(cfg, requestMethod, r, rest);
    HeadReadsAs(cfg, requestMethod, r, s1, Run(cfg, Init(cfg, requestMethod), r.Print() + rest), rest);
  }

  lemma BodyIsText(cfg: Config, m: Message, body: Body)
    ensures HoldsBody(cfg, m, body) ==> HoldsText(cfg, m, body.Data())
  {
  }
}
