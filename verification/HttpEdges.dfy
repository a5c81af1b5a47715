/** Where reading ends: at bad input, behind the headers if only these are wanted, or where
    the connection breaks off. */
module HttpEdges {
  import opened HttpTypes
  import opened HttpMachine
  import opened HttpRuns
  import opened HttpScans
  import opened HttpCanonical

  // -------------------------------------------------------------- bad input

  /** A response cannot do without its version and its status. */
  lemma StatusLineBreaksOff(cfg: Config, major: nat, minor: nat, c: char, more: string)
    requires !cfg.isRequest && (c == '\r' || c == '\n')
    ensures var v := HeadRun(cfg, InitHead(false), [c] + more); v.HeadBad? && v.error == VersionEmpty
    ensures var v := HeadRun(cfg, InitHead(false), PrintVersion(major, minor) + ([c] + more)); v.HeadBad? && v.error == StatusEmpty
  {
    hide PrintVersion;
    assert ([c] + more)[0] == c;
    var h := ReadVersion(cfg, InitHead(false), major, minor, [c] + more);
  }

  /** Where a version is expected, each character of its name is. */
  lemma VersionIsSpelled(cfg: Config, h: Head, i: nat, c: char, more: string)
    requires h.phase.VersionH? && i < 5 && c != "HTTP/"[i] && (i == 0 ==> c != '\r' && c != '\n')
    ensures var v := HeadRun(cfg, h, "HTTP/"[..i] + ([c] + more)); v.HeadBad? && v.error == VersionChar
  {
    hide HeadRun, RequestLineStep, StatusLineStep, FieldStep;
    var (s, t) := ("HTTP/"[..i] + ([c] + more), [c] + more);
    var h1 := h;
    if i == 0 {
      assert s == t;
    } else if i == 1 {
      assert s == ['H'] + t;
      h1 := Eat(cfg, h1, 'H', t);
    } else if i == 2 {
      assert s == ['H'] + (['T'] + t);
      h1 := Eat(cfg, h1, 'H', ['T'] + t);
      h1 := Eat(cfg, h1, 'T', t);
    } else if i == 3 {
      assert s == ['H'] + (['T'] + (['T'] + t));
      h1 := Eat(cfg, h1, 'H', ['T'] + (['T'] + t));
      h1 := Eat(cfg, h1, 'T', ['T'] + t);
      h1 := Eat(cfg, h1, 'T', t);
    } else {
      assert s == ['H'] + (['T'] + (['T'] + (['P'] + t)));
      h1 := Eat(cfg, h1, 'H', ['T'] + (['T'] + (['P'] + t)));
      h1 := Eat(cfg, h1, 'T', ['T'] + (['P'] + t));
      h1 := Eat(cfg, h1, 'T', ['P'] + t);
      h1 := Eat(cfg, h1, 'P', t);
    }
    BadStep(cfg, h1, c, more);
  }

  lemma BadStep(cfg: Config, h: Head, c: char, more: string)
    ensures var (r, v) := (HeadStep(cfg, h, c), HeadRun(cfg, h, [c] + more));
            r.HeadFailed? ==> v.HeadBad? && v.error == r.error
  {
    assert ([c] + more)[0] == c;
  }

  /** Numbers are made of digits, up to what ends them. */
  lemma NumbersAreDigits(cfg: Config, h: Head, c: char, more: string)
    requires !IsDigit(c)
    requires match h.phase
             case MajorStart | MinorStart | StatusCodeStart => true
             case Major => c != '.'
             case Minor | StatusCode => c !in " \r\n"
             case _ => false
    ensures var v := HeadRun(cfg, h, [c] + more);
            v.HeadBad? && v.error == if h.phase in {StatusCodeStart, StatusCode} then StatusChar else VersionChar
  {
    BadStep(cfg, h, c, more);
  }

  /** The request with this text in place of a length. */
  function WithLength(r: Request, text: string): string {
    r.PrintLine() + PrintHeaders(r.headers + [("Content-Length", text)])
  }

  lemma LengthFound(headers: seq<Header>, text: string)
    requires PlainHeaders(headers) && ValidValue(text)
    ensures ValidHeaders(headers + [("Content-Length", text)]) && !ChunkedCoding(headers + [("Content-Length", text)])
    ensures FindHeader(headers + [("Content-Length", text)], "Content-Length") == Some(text)
  {
    hide ValidName, ValidValue;
    LengthHeaderName();
    var framing := [("Content-Length", text)];
    FindHeaderConcat(headers, framing, "Transfer-Encoding");
    FindHeaderConcat(headers, framing, "Content-Length");
    assert |Lower("Content-Length")| != |Lower("Transfer-Encoding")| && framing[1..] == [];
  }

  /** A length that is no number, or too large, makes a request invalid. */
  lemma BadLengthIsRefused(cfg: Config, r: Request, text: string, rest: string)
    requires Canonical(r) && cfg.isRequest && ValidValue(text) && ContentLengthOf(text).None?
    ensures var v := Run(cfg, Init(cfg, ""), WithLength(r, text) + rest);
            v.Failed? && v.error == InvalidContentLength && v.state.msg.status == Truncated && !v.state.msg.isValid
  {
    hide Run, HeadRun, PrintHeaders, ValidHeaders, ContentLengthOf, FindHeader;
    var headers := r.headers + [("Content-Length", text)];
    LengthFound(r.headers, text);
    var (s, input) := (Init(cfg, ""), WithLength(r, text) + rest);
    assert input == r.PrintLine() + (PrintHeaders(headers) + rest);
    var h := ReadRequestLine(cfg, r, PrintHeaders(headers) + rest);
    h := ReadHeaders(cfg, h, headers, rest);
    assert [] + headers == headers;
    RunHead(cfg, s, input);
  }

  // --------------------------------------------------------- only the headers

  /** A parser that wants only the headers stops behind them, whatever body they announce. */
  lemma HeadersOnlyStop(cfg: Config, r: Request, rest: string)
    requires Canonical(r) && cfg.isRequest && cfg.headersOnly
    ensures var v := Run(cfg, Init(cfg, ""), r.Print() + rest);
            && v.Complete? && v.rest == r.body.Print() + rest
            && v.state.msg.verb == r.verb && v.state.msg.resource == r.resource && v.state.msg.query == r.query
            && v.state.head.headers == r.headers + r.body.Framing() && v.state.msg.content == ""
            && v.state.msg.isChunked == r.body.Chunked?
            && v.state.msg.contentLength == if r.body.Sized? then Min(|r.body.data|, cfg.cap) else 0
  {
    hide Run, HeadRun, FindHeader, ContentLengthOf, PrintDec, ChunkedCoding;
    FramingFound(r.headers, r.body);
    if r.body.Sized? {
      PrintedLengthParses(|r.body.data|);
    }
    var h := ReadRequestHead(cfg, r, rest);
    RunHead(cfg, Init(cfg, ""), r.Print() + rest);
  }

  /** What is saved of a header block: the bytes read. If its last line ends in a single
      character, the one behind it is saved too, though it is not consumed. */
  ghost predicate Saves(before: string, after: string, input: string, rest: string) {
    var n := |input| - |rest|;
    || (0 <= n <= |input| && after == before + input[..n])
    || (0 <= n < |input| && after == before + input[..n + 1]
        && (n > 0 ==> [input[n - 1], input[n]] != "\r\n" && [input[n - 1], input[n]] != "\n\r"))
  }

  lemma {:induction false} RawIsTheHeader(cfg: Config, h: Head, input: string)
    ensures match HeadRun(cfg, h, input)
            case HeadComplete(h1, rest) => if cfg.saveRaw then Saves(h.raw, h1.raw, input, rest) else h1.raw == h.raw
            case HeadUndecided(h1) => h1.raw == if cfg.saveRaw then h.raw + input else h.raw
            case HeadBad(_, _) => true
    decreases |input|
  {
    hide HeadStep, Saves;
    if input == "" {
      assert h.raw + "" == h.raw;
    } else {
      var (c, tail, r) := (input[0], input[1..], HeadStep(cfg, h, input[0]));
      StepSaves(cfg, h, c);
      if r.HeadMore? {
        RawIsTheHeader(cfg, r.head, tail);
        assert h.raw + [c] + tail == h.raw + input;
        var v := HeadRun(cfg, r.head, tail);
        if v.HeadComplete? && cfg.saveRaw {
          if |v.rest| == |tail| {
            NothingConsumed(cfg, r.head, tail);
          }
          SavesOn(h.raw, c, v.head.raw, tail, v.rest);
          assert input == [c] + tail;
        }
      } else if r.HeadDone? && cfg.saveRaw {
        SavesOne(h, c, r.head.raw, tail, r.consumed);
        assert input == [c] + tail;
      }
    }
  }

  /** A block that ends without consuming anything ends at a lone character. */
  lemma NothingConsumed(cfg: Config, h: Head, input: string)
    requires HeadRun(cfg, h, input).HeadComplete? && |HeadRun(cfg, h, input).rest| == |input|
    ensures input != "" && ((h.phase.ExpectingFinalNewline? && input[0] != '\n') || (h.phase.ExpectingFinalCr? && input[0] != '\r'))
  {
    hide HeadStep;
    var r := HeadStep(cfg, h, input[0]);
    StepSaves(cfg, h, input[0]);
    if r.HeadMore? {
      HeadRestIsSuffix(cfg, r.head, input[1..]);
    }
  }

  predicate InFields(h: Head) {
    h.phase in {ExpectingNewline, ExpectingCr, HeaderWhitespace, HeaderStart, HeaderName, SpaceBeforeValue, HeaderValue,
                ExpectingFinalNewline, ExpectingFinalCr}
  }

  /** A header block ends without consuming only behind a line end of one character, and
      the raw headers are left alone by all but HeadStep itself. */
  ghost predicate Ends(h: Head, r: HeadResult, c: char) {
    && (!r.HeadFailed? ==> r.head.raw == h.raw)
    && (r.HeadMore? && r.head.phase.ExpectingFinalNewline? ==> c == '\r')
    && (r.HeadMore? && r.head.phase.ExpectingFinalCr? ==> c == '\n')
    && (r.HeadDone? && !r.consumed ==>
          (h.phase.ExpectingFinalNewline? && c != '\n') || (h.phase.ExpectingFinalCr? && c != '\r'))
  }

  lemma RequestLineEnds(h: Head, c: char)
    requires h.phase in {MethodStart, Method, UriStem, UriQuery}
    ensures Ends(h, RequestLineStep(h, c), c)
  {
  }

  lemma VersionEnds(isRequest: bool, h: Head, c: char)
    requires h.phase in {VersionH, VersionT1, VersionT2, VersionP, VersionSlash, MajorStart, Major, MinorStart, Minor}
    ensures Ends(h, VersionStep(isRequest, h, c), c)
  {
  }

  lemma StatusLineEnds(h: Head, c: char)
    requires h.phase in {StatusCodeStart, StatusCode, StatusMessage}
    ensures Ends(h, StatusLineStep(h, c), c)
  {
  }

  lemma FieldsEnd(h: Head, c: char)
    requires InFields(h)
    ensures Ends(h, FieldStep(h, c), c)
  {
  }

  lemma StepSaves(cfg: Config, h: Head, c: char)
    ensures var r := HeadStep(cfg, h, c);
            && (!r.HeadFailed? ==> r.head.raw == if cfg.saveRaw then h.raw + [c] else h.raw)
            && (r.HeadMore? && r.head.phase.ExpectingFinalNewline? ==> c == '\r')
            && (r.HeadMore? && r.head.phase.ExpectingFinalCr? ==> c == '\n')
            && (r.HeadDone? && !r.consumed ==>
                  (h.phase.ExpectingFinalNewline? && c != '\n') || (h.phase.ExpectingFinalCr? && c != '\r'))
  {
    hide RequestLineStep, VersionStep, StatusLineStep, FieldStep;
    var h1 := if cfg.saveRaw then h.(raw := h.raw + [c]) else h;
    match h.phase {
      case MethodStart | Method | UriStem | UriQuery => RequestLineEnds(h1, c);
      case VersionH | VersionT1 | VersionT2 | VersionP | VersionSlash
        | MajorStart | Major | MinorStart | Minor => VersionEnds(cfg.isRequest, h1, c);
      case StatusCodeStart | StatusCode | StatusMessage => StatusLineEnds(h1, c);
      case _ => FieldsEnd(h1, c);
    }
  }

  lemma SavesOn(before: string, c: char, after: string, tail: string, rest: string)
    requires Saves(before + [c], after, tail, rest)
    requires |rest| == |tail| && tail != "" ==> [c, tail[0]] != "\r\n" && [c, tail[0]] != "\n\r"
    ensures Saves(before, after, [c] + tail, rest)
  {
    var (input, n) := ([c] + tail, |tail| - |rest|);
    if after == before + [c] + tail[..n] {
      assert before + [c] + tail[..n] == before + input[..n + 1];
    } else {
      assert before + [c] + tail[..n + 1] == before + input[..n + 2];
      assert n > 0 ==> [tail[n - 1], tail[n]] == [input[n], input[n + 1]];
    }
  }

  lemma SavesOne(h: Head, c: char, after: string, tail: string, consumed: bool)
    requires after == h.raw + [c]
    ensures Saves(h.raw, after, [c] + tail, if consumed then tail else [c] + tail)
  {
    assert ([c] + tail)[..1] == [c] && ([c] + tail)[..0] == "";
  }

  // ----------------------------------------------------------- cut in headers

  lemma NameStartKeepsLine(h: Head, c: char)
    ensures var r := NameStart(h, c); SameLine(h, r.head) && (InFields(h) ==> InFields(r.head))
  {
  }

  lemma FieldStepKeepsLine(cfg: Config, h: Head, c: char)
    requires InFields(h)
    ensures var r := HeadStep(cfg, h, c); SameLine(h, r.head) && InFields(r.head)
  {
    hide RequestLineStep, VersionStep, StatusLineStep, NameStart;
    NameStartKeepsLine(if cfg.saveRaw then h.(raw := h.raw + [c]) else h, c);
  }

  lemma {:induction false} FieldsKeepLine(cfg: Config, h: Head, input: string)
    requires InFields(h) && HeadRun(cfg, h, input).HeadUndecided?
    ensures SameLine(h, HeadRun(cfg, h, input).head)
    decreases |input|
  {
    hide HeadStep;
    if input != "" {
      FieldStepKeepsLine(cfg, h, input[0]);
      FieldsKeepLine(cfg, HeadStep(cfg, h, input[0]).head, input[1..]);
    }
  }

  /** A request whose headers break off is not valid and has no content, but its method,
      resource and query are there; one of which nothing has come has no status at all. */
  lemma CutInHeaders(cfg: Config, r: Request, part: string)
    requires Canonical(r) && cfg.isRequest && HeadRun(cfg, InitHead(true), r.PrintLine() + part).HeadUndecided?
    ensures var v := Run(cfg, Init(cfg, ""), r.PrintLine() + part);
            && v.Undecided?
            && var m := Finish(cfg, v.state);
               && m.verb == r.verb && m.resource == r.resource && m.query == r.query
               && !m.isValid && m.status == Truncated && m.content == "" && m.contentLength == 0
    ensures var m := Finish(cfg, Init(cfg, "")); !m.isValid && m.status == NoStatus && m.content == "" && m.contentLength == 0
  {
    hide Run, HeadRun;
    var h := ReadRequestLine(cfg, r, part);
    FieldsKeepLine(cfg, h, part);
    RunHead(cfg, Init(cfg, ""), r.PrintLine() + part);
  }

  // ------------------------------------------------------------ cut in chunks

  function WholeChunks(chunks: seq<string>): string {
    if chunks == [] then "" else PrintChunk(chunks[0]) + WholeChunks(chunks[1..])
  }

  lemma {:induction false} ReadWholeChunks(cap: nat, k: Chunk, chunks: seq<string>, more: string) returns (k1: Chunk)
    requires k.phase.SizeStart? && Chunked(chunks).Valid()
    ensures ChunkRun(cap, k, WholeChunks(chunks) + more) == ChunkRun(cap, k1, more)
    ensures k1.phase.SizeStart? && k1.cache == CachedAll(cap, k.cache, Flatten(chunks))
    decreases |chunks|
  {
    hide ChunkRun, PrintChunk;
    if chunks == [] {
      assert WholeChunks(chunks) + more == more;
      CachedNothing(cap, k.cache);
      k1 := k;
    } else {
      var rest := WholeChunks(chunks[1..]) + more;
      assert WholeChunks(chunks) + more == PrintChunk(chunks[0]) + rest;
      k1 := ReadChunk(cap, k, chunks[0], rest);
      CachedAllConcat(cap, k.cache, chunks[0], Flatten(chunks[1..]));
      k1 := ReadWholeChunks(cap, k1, chunks[1..], more);
    }
  }

  lemma {:induction false} ReadPartOfChunk(cap: nat, k: Chunk, data: string) returns (k1: Chunk)
    requires k.phase.InChunk? && |data| < k.size - k.read
    ensures ChunkRun(cap, k, data) == ChunksUndecided(k1)
    ensures k1.phase.InChunk? && k1.cache == CachedAll(cap, k.cache, data)
    decreases |data|
  {
    if data == "" {
      CachedNothing(cap, k.cache);
      k1 := k;
    } else {
      CachedAllStep(cap, k.cache, data);
      k1 := ReadPartOfChunk(cap, ChunkStep(cap, k, data[0]).chunk, data[1..]);
    }
  }

  /** A chunked body without its last chunk still makes a valid message, with all its data
      up to the cap, if it breaks off between two chunks; inside one it does not. */
  lemma CutInChunks(cfg: Config, s: State, chunks: seq<string>, size: nat, part: string)
    requires s.phase.Chunks? && s.chunk == INIT_CHUNK && !s.msg.missing && !s.msg.dataAfterMissing && Chunked(chunks).Valid()
    requires |part| < size <= LONG_MAX
    ensures var v := Run(cfg, s, WholeChunks(chunks));
            && v.Undecided? && Finish(cfg, v.state).isValid && Finish(cfg, v.state).status == Ok
            && Finish(cfg, v.state).content == Flatten(chunks)[..Min(|Flatten(chunks)|, cfg.cap)]
    ensures var (v, data) := (Run(cfg, s, WholeChunks(chunks) + (PrintHex(size) + (CRLF + part))), Flatten(chunks) + part);
            && v.Undecided? && !Finish(cfg, v.state).isValid && Finish(cfg, v.state).status == Truncated
            && Finish(cfg, v.state).content == data[..Min(|data|, cfg.cap)]
  {
    hide Run, PrintHex, PrintChunk, WholeChunks, Flatten;
    var text := WholeChunks(chunks);
    var k := ReadWholeChunks(cfg.cap, s.chunk, chunks, "");
    assert text + "" == text;
    RunChunks(cfg, s, text);
    WholeCache(cfg.cap, Flatten(chunks));
    var k2 := ReadWholeChunks(cfg.cap, s.chunk, chunks, PrintHex(size) + (CRLF + part));
    k2 := ReadSize(cfg.cap, k2, size, part);
    k2 := ReadPartOfChunk(cfg.cap, k2, part);
    RunChunks(cfg, s, text + (PrintHex(size) + (CRLF + part)));
    CachedAllConcat(cfg.cap, "", Flatten(chunks), part);
    WholeCache(cfg.cap, Flatten(chunks) + part);
  }

  lemma WholeCache(cap: nat, data: string)
    ensures CachedAll(cap, "", data) == data[..Min(|data|, cap)]
  {
  }
}
