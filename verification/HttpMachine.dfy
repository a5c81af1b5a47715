/** The HTTP parser as a machine that is fed one byte at a time.

    HTTPParser works on whole buffers: it copies content in blocks, and adds to
    its counters once per buffer. This module defines what it should compute,
    without buffers: the state after one more byte. */
module HttpMachine {
  import opened HttpTypes

  const STATUS_MESSAGE_MAX := 1024
  const METHOD_MAX := 1024
  const RESOURCE_MAX := 256 * 1024
  const QUERY_STRING_MAX := 1024 * 1024
  const HEADER_NAME_MAX := 1024
  const HEADER_VALUE_MAX := 1024 * 1024

  /** NotSet: the source returns failure without setting an error code. */
  datatype Error =
    | NotSet | MethodChar | MethodSize | UriChar | UriSize | QueryChar | QuerySize
    | VersionEmpty | VersionChar | StatusEmpty | StatusChar | HeaderChar
    | HeaderNameSize | HeaderValueSize | InvalidContentLength | ChunkChar
    | MissingChunkData | MissingHeaderData | MissingTooMuchContent

  datatype Config = Config(isRequest: bool, cap: nat, headersOnly: bool, saveRaw: bool)

  datatype Phase = Start | Headers | Content | ContentNoLength | Chunks | End

  datatype HeadPhase =
    | MethodStart | Method | UriStem | UriQuery
    | VersionH | VersionT1 | VersionT2 | VersionP | VersionSlash
    | MajorStart | Major | MinorStart | Minor
    | StatusCodeStart | StatusCode | StatusMessage
    | ExpectingNewline | ExpectingCr
    | HeaderWhitespace | HeaderStart | HeaderName | SpaceBeforeValue | HeaderValue
    | ExpectingFinalNewline | ExpectingFinalCr

  datatype ChunkPhase =
    | SizeStart | Size | CrAfterSize | LfAfterSize | InChunk
    | CrAfterChunk | LfAfterChunk | FinalCr | FinalLf

  /** What parseHeaders reads and updates. */
  datatype Head = Head(
    phase: HeadPhase,
    verb: string, resource: string, query: string,
    statusCode: nat, statusMessage: string,
    name: string, value: string, raw: string,
    major: nat, minor: nat, headers: seq<Header>)

  /** What parseChunks reads and updates, apart from the counters. */
  datatype Chunk = Chunk(phase: ChunkPhase, sizeText: string, size: nat, read: nat, cache: string)

  datatype Status = NoStatus | Truncated | Partial | Ok

  /** The message under construction. content is the part of the content buffer
      written so far from its start; bufferSize is the size of that buffer. */
  datatype Message = Message(
    verb: string, resource: string, query: string, statusCode: nat, statusMessage: string,
    requestMethod: string, isChunked: bool, contentLength: nat, content: string, bufferSize: nat,
    isValid: bool, status: Status, missing: bool, dataAfterMissing: bool)

  datatype State = State(
    phase: Phase, head: Head, chunk: Chunk,
    remaining: nat, contentRead: nat, totalRead: nat, msg: Message)

  function InitHead(isRequest: bool): Head {
    Head(if isRequest then MethodStart else VersionH, "", "", "", 0, "", "", "", "", 1, 1, [])
  }

  const INIT_CHUNK := Chunk(SizeStart, "", 0, 0, "")

  /** A new parser together with a cleared message; requestMethod is the method of
      the request that a response answers. */
  function Init(cfg: Config, requestMethod: string): State {
    State(Start, InitHead(cfg.isRequest), INIT_CHUNK, 0, 0, 0,
          Message("", "", "", if cfg.isRequest then 0 else 200, if cfg.isRequest then "" else "OK",
                  requestMethod, false, 0, "", 0, false, NoStatus, false, false))
  }

  // ---------------------------------------------------------------- headers

  datatype HeadResult =
    | HeadMore(head: Head)
    | HeadDone(head: Head, consumed: bool)
    | HeadFailed(head: Head, error: Error)

  function HeadStep(cfg: Config, h0: Head, c: char): HeadResult {
    var h := if cfg.saveRaw then h0.(raw := h0.raw + [c]) else h0;
    match h.phase
    case MethodStart | Method | UriStem | UriQuery => RequestLineStep(h, c)
    case VersionH | VersionT1 | VersionT2 | VersionP | VersionSlash
      | MajorStart | Major | MinorStart | Minor => VersionStep(cfg.isRequest, h, c)
    case StatusCodeStart | StatusCode | StatusMessage => StatusLineStep(h, c)
    case _ => FieldStep(h, c)
  }

  function NoVersion(h: Head, next: HeadPhase): HeadResult {
    HeadMore(h.(major := 0, minor := 0, phase := next))
  }

  function RequestLineStep(h: Head, c: char): HeadResult
    requires h.phase.MethodStart? || h.phase.Method? || h.phase.UriStem? || h.phase.UriQuery?
  {
    match h.phase
    case MethodStart =>
      if c == ' ' || c == '\r' || c == '\n' then HeadMore(h)
      else if !IsToken(c) then HeadFailed(h, MethodChar)
      else HeadMore(h.(phase := Method, verb := [c]))
    case Method =>
      if c == ' ' then HeadMore(h.(resource := "", phase := UriStem))
      else if !IsToken(c) then HeadFailed(h, MethodChar)
      else if |h.verb| >= METHOD_MAX then HeadFailed(h, MethodSize)
      else HeadMore(h.(verb := h.verb + [c]))
    case UriStem =>
      if c == ' ' then HeadMore(h.(phase := VersionH))
      else if c == '?' then HeadMore(h.(query := "", phase := UriQuery))
      else if c == '\r' then NoVersion(h, ExpectingNewline)
      else if c == '\n' then NoVersion(h, ExpectingCr)
      else if IsControl(c) then HeadFailed(h, UriChar)
      else if |h.resource| >= RESOURCE_MAX then HeadFailed(h, UriSize)
      else HeadMore(h.(resource := h.resource + [c]))
    case UriQuery =>
      if c == ' ' then HeadMore(h.(phase := VersionH))
      else if IsControl(c) then HeadFailed(h, QueryChar)
      else if |h.query| >= QUERY_STRING_MAX then HeadFailed(h, QuerySize)
      else HeadMore(h.(query := h.query + [c]))
  }

  function Expect(h: Head, c: char, want: char, next: HeadPhase): HeadResult {
    if c == want then HeadMore(h.(phase := next)) else HeadFailed(h, VersionChar)
  }

  /** A line that ends without a version is let through only for requests; the
      phase chosen for it is then overwritten, so the next byte must be a 'T'. */
  function VersionStep(isRequest: bool, h: Head, c: char): HeadResult
    requires h.phase.VersionH? || h.phase.VersionT1? || h.phase.VersionT2? || h.phase.VersionP?
          || h.phase.VersionSlash? || h.phase.MajorStart? || h.phase.Major? || h.phase.MinorStart?
          || h.phase.Minor?
  {
    match h.phase
    case VersionH =>
      if c == '\r' || c == '\n' then
        if isRequest then NoVersion(h, VersionT1) else HeadFailed(h, VersionEmpty)
      else Expect(h, c, 'H', VersionT1)
    case VersionT1 => Expect(h, c, 'T', VersionT2)
    case VersionT2 => Expect(h, c, 'T', VersionP)
    case VersionP => Expect(h, c, 'P', VersionSlash)
    case VersionSlash => Expect(h, c, '/', MajorStart)
    case MajorStart =>
      if !IsDigit(c) then HeadFailed(h, VersionChar)
      else HeadMore(h.(major := DigitValue(c), phase := Major))
    case Major =>
      if c == '.' then HeadMore(h.(phase := MinorStart))
      else if IsDigit(c) then HeadMore(h.(major := (h.major * 10 + DigitValue(c)) % 0x1_0000))
      else HeadFailed(h, VersionChar)
    case MinorStart =>
      if !IsDigit(c) then HeadFailed(h, VersionChar)
      else HeadMore(h.(minor := DigitValue(c), phase := Minor))
    case Minor =>
      if c == ' ' then HeadMore(if isRequest then h else h.(phase := StatusCodeStart))
      else if c == '\r' || c == '\n' then
        if isRequest then HeadMore(h.(phase := AfterLine(c))) else HeadFailed(h, StatusEmpty)
      else if IsDigit(c) then HeadMore(h.(minor := (h.minor * 10 + DigitValue(c)) % 0x1_0000))
      else HeadFailed(h, VersionChar)
  }

  /** The phase after a carriage return or a bare newline ends a line. */
  function AfterLine(c: char): HeadPhase
    requires c == '\r' || c == '\n'
  {
    if c == '\r' then ExpectingNewline else ExpectingCr
  }

  function StatusLineStep(h: Head, c: char): HeadResult
    requires h.phase.StatusCodeStart? || h.phase.StatusCode? || h.phase.StatusMessage?
  {
    match h.phase
    case StatusCodeStart =>
      if !IsDigit(c) then HeadFailed(h, StatusChar)
      else HeadMore(h.(statusCode := DigitValue(c), phase := StatusCode))
    case StatusCode =>
      if c == ' ' then HeadMore(h.(statusMessage := "", phase := StatusMessage))
      else if IsDigit(c) then HeadMore(h.(statusCode := (h.statusCode * 10 + DigitValue(c)) % 0x1_0000))
      else if c == '\r' || c == '\n' then HeadMore(h.(statusMessage := "", phase := AfterLine(c)))
      else HeadFailed(h, StatusChar)
    case StatusMessage =>
      if c == '\r' || c == '\n' then HeadMore(h.(phase := AfterLine(c)))
      else if IsControl(c) || |h.statusMessage| >= STATUS_MESSAGE_MAX then HeadFailed(h, StatusChar)
      else HeadMore(h.(statusMessage := h.statusMessage + [c]))
  }

  /** The byte that may start a header name. */
  function NameStart(h: Head, c: char): HeadResult {
    if c == '\t' || c == ' ' then HeadMore(h.(phase := HeaderWhitespace))
    else if !IsToken(c) then HeadFailed(h, HeaderChar)
    else HeadMore(h.(name := [c], phase := HeaderName))
  }

  function AddHeader(h: Head, c: char): HeadResult
    requires c == '\r' || c == '\n'
  {
    HeadMore(h.(headers := h.headers + [(h.name, h.value)], phase := AfterLine(c)))
  }

  function FieldStep(h: Head, c: char): HeadResult
    requires h.phase.ExpectingNewline? || h.phase.ExpectingCr? || h.phase.HeaderWhitespace?
          || h.phase.HeaderStart? || h.phase.HeaderName? || h.phase.SpaceBeforeValue?
          || h.phase.HeaderValue? || h.phase.ExpectingFinalNewline? || h.phase.ExpectingFinalCr?
  {
    match h.phase
    case ExpectingNewline =>
      if c == '\n' then HeadMore(h.(phase := HeaderStart))
      else if c == '\r' then HeadDone(h, true)
      else NameStart(h, c)
    case ExpectingCr =>
      if c == '\r' then HeadMore(h.(phase := HeaderStart))
      else if c == '\n' then HeadDone(h, true)
      else NameStart(h, c)
    case HeaderWhitespace =>
      if c == '\r' || c == '\n' then HeadMore(h.(phase := AfterLine(c)))
      else if c == '\t' || c == ' ' then HeadMore(h)
      else HeadFailed(h, if IsToken(c) then NotSet else HeaderChar)
    case HeaderStart =>
      if c == '\r' then HeadMore(h.(phase := ExpectingFinalNewline))
      else if c == '\n' then HeadMore(h.(phase := ExpectingFinalCr))
      else NameStart(h, c)
    case HeaderName =>
      if c == ':' then HeadMore(h.(value := "", phase := SpaceBeforeValue))
      else if !IsToken(c) then HeadFailed(h, HeaderChar)
      else if |h.name| >= HEADER_NAME_MAX then HeadFailed(h, HeaderNameSize)
      else HeadMore(h.(name := h.name + [c]))
    case SpaceBeforeValue =>
      if c == ' ' then HeadMore(h.(phase := HeaderValue))
      else if c == '\r' || c == '\n' then AddHeader(h, c)
      else if !IsToken(c) then HeadFailed(h, HeaderChar)
      else HeadMore(h.(value := h.value + [c], phase := HeaderValue))
    case HeaderValue =>
      if c == '\r' || c == '\n' then AddHeader(h, c)
      else if IsControl(c) then HeadFailed(h, HeaderChar)
      else if |h.value| >= HEADER_VALUE_MAX then HeadFailed(h, HeaderValueSize)
      else HeadMore(h.(value := h.value + [c]))
    case ExpectingFinalNewline => HeadDone(h, c == '\n')
    case ExpectingFinalCr => HeadDone(h, c == '\r')
  }

  // ----------------------------------------------------------------- chunks

  datatype ChunkResult = ChunkMore(chunk: Chunk) | ChunkDone(chunk: Chunk) | ChunkFailed(chunk: Chunk)

  /** Appends a byte to a cache that stops growing at cap. */
  function Cached(cap: nat, cache: string, c: char): string {
    if |cache| < cap then cache + [c] else cache
  }

  function ChunkStep(cap: nat, k: Chunk, c: char): ChunkResult
  {
    match k.phase
    case SizeStart =>
      if IsHexDigit(c) then ChunkMore(k.(sizeText := [c], phase := Size))
      else if c == ' ' || c == '\t' || c == '\r' || c == '\n' then ChunkMore(k)
      else ChunkFailed(k)
    case Size =>
      if IsHexDigit(c) then ChunkMore(k.(sizeText := k.sizeText + [c]))
      else if c == '\r' then ChunkMore(k.(phase := LfAfterSize))
      else if c == ' ' || c == '\t' then ChunkMore(k.(phase := CrAfterSize))
      else ChunkFailed(k)
    case CrAfterSize =>
      if c == '\r' then ChunkMore(k.(phase := LfAfterSize))
      else if c == ' ' || c == '\t' then ChunkMore(k)
      else ChunkFailed(k)
    case LfAfterSize =>
      if c != '\n' then ChunkFailed(k)
      else
        var n := StrToLong16(k.sizeText);
        ChunkMore(k.(read := 0, size := n, phase := if n == 0 then FinalCr else InChunk))
    case InChunk =>
      var k1 := if k.read < k.size then k.(cache := Cached(cap, k.cache, c), read := k.read + 1) else k;
      ChunkMore(if k1.read == k1.size then k1.(phase := CrAfterChunk) else k1)
    case CrAfterChunk => if c == '\r' then ChunkMore(k.(phase := LfAfterChunk)) else ChunkFailed(k)
    case LfAfterChunk => if c == '\n' then ChunkMore(k.(phase := SizeStart)) else ChunkFailed(k)
    case FinalCr => if c == '\r' then ChunkMore(k.(phase := FinalLf)) else ChunkFailed(k)
    case FinalLf => if c == '\n' then ChunkDone(k) else ChunkFailed(k)
  }

  // --------------------------------------------------------------- messages

  function ComputeStatus(m: Message, parsedOk: bool): Status {
    if m.missing then (if m.dataAfterMissing then Partial else Truncated)
    else if parsedOk then Ok else Truncated
  }

  function WithStatus(m: Message, parsedOk: bool): Message {
    m.(status := ComputeStatus(m, parsedOk))
  }

  /** concatenateChunks: the cache becomes the content. */
  function Concatenated(m: Message, cache: string): Message {
    m.(contentLength := |cache|, content := cache, bufferSize := |cache|)
  }

  /** updateMessageWithHeaderData. */
  function Publish(cfg: Config, m: Message, h: Head): Message {
    if cfg.isRequest then m.(verb := h.verb, resource := h.resource, query := h.query)
    else m.(statusCode := h.statusCode, statusMessage := h.statusMessage)
  }

  /** HTTPParser::finish: what is left of a message when no more input comes. */
  function Finish(cfg: Config, s: State): Message {
    var m := CutOff(cfg, s);
    if s.phase.Start? then m else WithStatus(m, m.isValid)
  }

  /** Validity, content length and content of a message cut off in the given state. */
  function CutOff(cfg: Config, s: State): Message {
    var m := s.msg;
    match s.phase
    case Start => Emptied(m)
    case Headers => Emptied(Publish(cfg, m, s.head))
    case Content => m.(isValid := false, contentLength := if s.contentRead < cfg.cap then s.contentRead else m.contentLength)
    case Chunks => Concatenated(m.(isValid := s.chunk.phase.SizeStart?), s.chunk.cache)
    case ContentNoLength => Concatenated(m.(isValid := true), s.chunk.cache)
    case End => m.(isValid := true)
  }

  function Emptied(m: Message): Message {
    m.(isValid := false, contentLength := 0, content := "", bufferSize := 0)
  }

  /** isContentLengthImplied; never for requests. */
  predicate LengthImplied(cfg: Config, m: Message) {
    !cfg.isRequest &&
    (m.requestMethod == "HEAD" || 100 <= m.statusCode <= 199
     || m.statusCode == 204 || m.statusCode == 205 || m.statusCode == 304)
  }

  datatype HeaderOutcome =
    | BodyFollows(state: State)
    | NoMoreBody(state: State)
    | BadLength(state: State)

  /** finishHeaderParsing: chooses how the body is delimited and allocates the
      buffer for its content. */
  function FinishHeaders(cfg: Config, s: State): HeaderOutcome {
    match ChooseBody(cfg, Published(cfg, s))
    case BadLength(s1) => BadLength(s1)
    case NoMoreBody(s1) => NoMoreBody(WithBuffer(s1))
    case BodyFollows(s1) => BodyFollows(WithBuffer(s1))
  }

  predicate ChunkedCoding(headers: seq<Header>) {
    var coding := FindHeader(headers, "Transfer-Encoding");
    coding.Some? && MentionsChunked(coding.value)
  }

  function Published(cfg: Config, s: State): State {
    s.(remaining := 0, contentRead := 0,
       msg := Publish(cfg, s.msg.(contentLength := 0, isChunked := ChunkedCoding(s.head.headers)), s.head))
  }

  function WithBuffer(s: State): State {
    s.(msg := s.msg.(content := "", bufferSize := s.msg.contentLength))
  }

  function ChooseBody(cfg: Config, s: State): HeaderOutcome {
    var length := FindHeader(s.head.headers, "Content-Length");
    if s.msg.isChunked then Opened(cfg, s.(phase := Chunks))
    else if LengthImplied(cfg, s.msg) then NoMoreBody(s.(phase := End))
    else if length.Some? then
      var n := ContentLengthOf(length.value);
      if n.None? then BadLength(s)
      else if n.value == 0 then NoMoreBody(s.(phase := End))
      else Opened(cfg, s.(phase := Content, remaining := n.value,
                          msg := s.msg.(contentLength := Min(n.value, cfg.cap))))
    else if cfg.isRequest then NoMoreBody(s.(phase := End))
    else Opened(cfg, s.(phase := ContentNoLength, chunk := s.chunk.(cache := "")))
  }

  /** A body follows, unless only headers are wanted. */
  function Opened(cfg: Config, s: State): HeaderOutcome {
    if cfg.headersOnly then NoMoreBody(s) else BodyFollows(s)
  }

  // ----------------------------------------------------------- the machine

  datatype StepResult =
    | More(state: State)
    | Done(state: State, consumed: bool)
    | Fail(state: State, error: Error)

  /** Data seen after a lost packet is noted. */
  function Touch(s: State): State {
    s.(msg := s.msg.(dataAfterMissing := s.msg.dataAfterMissing || s.msg.missing))
  }

  function Count(s: State, n: nat): State { s.(totalRead := s.totalRead + n) }

  function CountContent(s: State, n: nat): State {
    s.(totalRead := s.totalRead + n, contentRead := s.contentRead + n)
  }

  function Completed(cfg: Config, s: State): State {
    var s1 := s.(phase := End);
    s1.(msg := Finish(cfg, s1))
  }

  /** checkPrematureEOF on a body that lasts until the connection closes. */
  function AtEof(cfg: Config, s: State): State {
    Completed(cfg, s.(msg := Concatenated(s.msg, s.chunk.cache)))
  }

  function Rejected(s: State): State { s.(msg := WithStatus(s.msg, false)) }

  function Step(cfg: Config, s0: State, c: char): StepResult
  {
    var s := Touch(s0);
    if s.phase.Start? || s.phase.Headers? then
      match HeadStep(cfg, s.head, c)
      case HeadMore(h) => More(Count(s.(phase := Headers, head := h), 1))
      case HeadFailed(h, e) => Fail(Rejected(s.(phase := Headers, head := h)), e)
      case HeadDone(h, consumed) =>
        var s1 := Count(s.(phase := Headers, head := h), if consumed then 1 else 0);
        match FinishHeaders(cfg, s1)
        case BadLength(s2) => Fail(Rejected(s2), InvalidContentLength)
        case NoMoreBody(s2) => Done(Completed(cfg, s2), consumed)
        case BodyFollows(s2) => if consumed then More(s2) else BodyStep(cfg, s2, c)
    else
      BodyStep(cfg, s, c)
  }

  function BodyStep(cfg: Config, s: State, c: char): StepResult
    requires !s.phase.Start? && !s.phase.Headers?
  {
    match s.phase
    case Content =>
      if s.remaining == 0 then Done(Completed(cfg, s), false)
      else
        var m := if s.contentRead < cfg.cap then s.msg.(content := s.msg.content + [c]) else s.msg;
        var s1 := CountContent(s.(remaining := s.remaining - 1, msg := m), 1);
        if s1.remaining == 0 then Done(Completed(cfg, s1), true) else More(s1)
    case ContentNoLength =>
      More(CountContent(s.(chunk := s.chunk.(cache := Cached(cfg.cap, s.chunk.cache, c))), 1))
    case Chunks =>
      (match ChunkStep(cfg.cap, s.chunk, c)
       case ChunkMore(k) => More(CountContent(s.(chunk := k), 1))
       case ChunkFailed(k) => Fail(Rejected(s.(chunk := k)), ChunkChar)
       case ChunkDone(k) =>
         var s1 := CountContent(s.(chunk := k), 1);
         Done(Completed(cfg, s1.(msg := Concatenated(s1.msg, k.cache))), true))
    case End => Done(Completed(cfg, s), false)
  }

  /** The verdict on a stretch of input. rest is what a decided run leaves unread. */
  datatype Verdict =
    | Undecided(state: State)
    | Complete(state: State, rest: string)
    | Failed(state: State, error: Error)

  function Run(cfg: Config, s: State, input: string): Verdict
    decreases |input|
  {
    if input == "" then Undecided(s)
    else
      match Step(cfg, s, input[0])
      case More(s1) => Run(cfg, s1, input[1..])
      case Done(s1, consumed) => Complete(s1, if consumed then input[1..] else input)
      case Fail(s1, e) => Failed(s1, e)
  }
}
