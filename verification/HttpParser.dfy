/** HTTPParser and HTTPMessage as they are: objects that work on whole buffers.

    Parse is proved to compute what the byte-at-a-time machine of HttpMachine
    computes on the same input. The fields that only the header scanner uses, and
    those that only the chunk scanner uses, are grouped in one record each. */
module HttpParser {
  import opened HttpTypes
  import opened HttpMachine
  import opened HttpRuns
  import opened HttpScans

  class HttpMessage {
    var verb: string
    var resource: string
    var query: string
    var statusCode: nat
    var statusMessage: string
    var requestMethod: string
    var isChunked: bool
    var contentLength: nat
    var contentBuf: array?<char>
    var isValid: bool
    var status: Status
    var missing: bool
    var dataAfterMissing: bool
    ghost var content: string  // what has been written to contentBuf from its start

    ghost predicate Valid()
      reads this, Buffer()
    {
      && (contentBuf != null ==> contentBuf.Length > 0)
      && |content| <= BufferSize()
      && (contentBuf != null ==> contentBuf[..|content|] == content)
    }

    /** The allocated size without the terminating null character. */
    ghost function BufferSize(): nat
      reads this
    {
      if contentBuf == null || contentBuf.Length == 0 then 0 else contentBuf.Length - 1
    }

    ghost function Buffer(): set<object>
      reads this
    {
      if contentBuf == null then {} else {contentBuf}
    }

    ghost function View(): Message
      reads this
    {
      Message(verb, resource, query, statusCode, statusMessage, requestMethod, isChunked, contentLength,
              content, BufferSize(), isValid, status, missing, dataAfterMissing)
    }

    /** A message after clear(). */
    constructor (cfg: Config, requestMethod: string)
      ensures Valid() && Buffer() == {} && View() == Init(cfg, requestMethod).msg
    {
      verb, resource, query := "", "", "";
      statusCode, statusMessage := if cfg.isRequest then 0 else 200, if cfg.isRequest then "" else "OK";
      this.requestMethod := requestMethod;
      isChunked, contentLength, contentBuf := false, 0, null;
      isValid, status, missing, dataAfterMissing := false, NoStatus, false, false;
      content := "";
    }

    /** Whether a response with this status, to this request, has no body. */
    predicate IsContentLengthImplied()
      reads this
    {
      requestMethod == "HEAD" || 100 <= statusCode <= 199
      || statusCode == 204 || statusCode == 205 || statusCode == 304
    }

    method CreateContentBuffer()
      requires Valid()
      modifies this`contentBuf, this`content
      ensures Valid() && fresh(Buffer())
      ensures View() == old(View()).(content := "", bufferSize := contentLength)
    {
      contentBuf := new char[contentLength + 1];
      contentBuf[contentLength] := '\0';
      content := "";
    }

    /** Drops the content of an invalid message. */
    method Empty()
      requires Valid()
      modifies this`isValid, this`contentLength, this`contentBuf, this`content
      ensures Valid() && fresh(Buffer())
      ensures View() == Emptied(old(View()))
    {
      isValid := false;
      contentLength := 0;
      CreateContentBuffer();
    }

    method ConcatenateChunks(cache: string)
      requires Valid()
      modifies this`contentLength, this`contentBuf, this`content
      ensures Valid() && fresh(Buffer())
      ensures View() == Concatenated(old(View()), cache)
    {
      contentLength := |cache|;
      CreateContentBuffer();
      forall i | 0 <= i < |cache| {
        contentBuf[i] := cache[i];
      }
      content := cache;
    }

    method ComputeMsgStatus(parsedOk: bool)
      requires Valid()
      modifies this`status
      ensures Valid() && View() == WithStatus(old(View()), parsedOk)
    {
      if missing {
        status := if dataAfterMissing then Partial else Truncated;
      } else {
        status := if parsedOk then Ok else Truncated;
      }
    }
  }

  // ----------------------------------------------------------- the parser

  class HttpParser {
    const isRequest: bool
    var readBuf: string   // the bytes between the read pointer's origin and its end
    var readPtr: nat      // the next byte to consume
    var phase: Phase
    var head: Head
    var chunk: Chunk
    var bytesContentRemaining: nat
    var bytesContentRead: nat
    var bytesLastRead: nat
    var bytesTotalRead: nat
    var maxContentLength: nat
    var parseHeadersOnly: bool
    var saveRawHeaders: bool

    function Cfg(): Config
      reads this
    {
      Config(isRequest, maxContentLength, parseHeadersOnly, saveRawHeaders)
    }

    ghost function View(msg: HttpMessage): State
      reads this, msg
    {
      State(phase, head, chunk, bytesContentRemaining, bytesContentRead, bytesTotalRead, msg.View())
    }

    ghost predicate Valid(msg: HttpMessage)
      reads this, msg, msg.Buffer()
    {
      readPtr <= |readBuf| && msg.Valid() && Inv(Cfg(), View(msg))
    }

    ghost function Rest(): string
      requires readPtr <= |readBuf|
      reads this
    {
      readBuf[readPtr..]
    }

    constructor (isRequest: bool, maxContentLength: nat)
      ensures this.isRequest == isRequest && Cfg() == Config(isRequest, maxContentLength, false, false)
      ensures readPtr == |readBuf| && phase == Start && head == InitHead(isRequest) && chunk == INIT_CHUNK
      ensures bytesContentRemaining == bytesContentRead == bytesTotalRead == 0
    {
      this.isRequest := isRequest;
      readBuf, readPtr := "", 0;
      phase, head, chunk := Start, InitHead(isRequest), INIT_CHUNK;
      bytesContentRemaining, bytesContentRead, bytesLastRead, bytesTotalRead := 0, 0, 0, 0;
      this.maxContentLength := maxContentLength;
      parseHeadersOnly, saveRawHeaders := false, false;
    }

    method SetReadBuffer(data: string)
      modifies this`readBuf, this`readPtr
      ensures readPtr == 0 && readBuf == data && Rest() == data
    {
      readBuf, readPtr := data, 0;
    }

    predicate Eof()
      reads this
    {
      readPtr >= |readBuf|
    }

    method ParseHeaders() returns (rc: Tribool, ec: Error)
      requires readPtr <= |readBuf|
      modifies this`head, this`readPtr, this`bytesLastRead, this`bytesTotalRead
      ensures readPtr <= |readBuf| && old(readPtr) <= readPtr
      ensures bytesTotalRead == old(bytesTotalRead) + bytesLastRead
      ensures match HeadRun(Cfg(), old(head), old(Rest()))
              case HeadUndecided(h) => rc == Indeterminate && head == h && Rest() == "" && bytesLastRead == |old(Rest())|
              case HeadComplete(h, rest) => rc == True && head == h && Rest() == rest && bytesLastRead + |rest| == |old(Rest())|
              case HeadBad(h, e) => rc == False && head == h && ec == e && bytesLastRead == 0
    {
      hide HeadStep;
      ec := NotSet;
      var readStart := readPtr;
      bytesLastRead := 0;
      while readPtr < |readBuf|
        invariant readStart <= readPtr <= |readBuf|
        invariant bytesLastRead == 0 && bytesTotalRead == old(bytesTotalRead)
        invariant HeadRun(Cfg(), old(head), old(Rest())) == HeadRun(Cfg(), head, readBuf[readPtr..])
      {
        assert readBuf[readPtr..][1..] == readBuf[readPtr + 1..];
        match HeadStep(Cfg(), head, readBuf[readPtr]) {
          case HeadMore(h) =>
            head := h;
            readPtr := readPtr + 1;
          case HeadDone(h, consumed) =>
            head := h;
            if consumed {
              readPtr := readPtr + 1;
            }
            bytesLastRead := readPtr - readStart;
            bytesTotalRead := bytesTotalRead + bytesLastRead;
            return True, NotSet;
          case HeadFailed(h, e) =>
            head := h;
            return False, e;
        }
      }
      bytesLastRead := readPtr - readStart;
      bytesTotalRead := bytesTotalRead + bytesLastRead;
      rc := Indeterminate;
    }

    method ParseChunks() returns (rc: Tribool, ec: Error)
      requires readPtr <= |readBuf|
      modifies this`chunk, this`readPtr, this`bytesLastRead, this`bytesTotalRead, this`bytesContentRead
      ensures readPtr <= |readBuf| && old(readPtr) <= readPtr
      ensures bytesTotalRead == old(bytesTotalRead) + bytesLastRead
      ensures bytesContentRead == old(bytesContentRead) + bytesLastRead
      ensures match ChunkRun(maxContentLength, old(chunk), old(Rest()))
              case ChunksUndecided(k) => rc == Indeterminate && chunk == k && Rest() == "" && bytesLastRead == |old(Rest())|
              case ChunksComplete(k, rest) => rc == True && chunk == k && Rest() == rest && bytesLastRead + |rest| == |old(Rest())|
              case ChunksBad(k) => rc == False && chunk == k && ec == ChunkChar && bytesLastRead == 0
    {
      hide ChunkStep;
      ec := NotSet;
      var readStart := readPtr;
      bytesLastRead := 0;
      while readPtr < |readBuf|
        invariant readStart <= readPtr <= |readBuf|
        invariant bytesLastRead == 0
        invariant bytesTotalRead == old(bytesTotalRead) && bytesContentRead == old(bytesContentRead)
        invariant ChunkRun(maxContentLength, old(chunk), old(Rest())) == ChunkRun(maxContentLength, chunk, readBuf[readPtr..])
      {
        assert readBuf[readPtr..][1..] == readBuf[readPtr + 1..];
        match ChunkStep(maxContentLength, chunk, readBuf[readPtr]) {
          case ChunkMore(k) =>
            chunk := k;
            readPtr := readPtr + 1;
          case ChunkDone(k) =>
            chunk := k;
            readPtr := readPtr + 1;
            bytesLastRead := readPtr - readStart;
            bytesTotalRead := bytesTotalRead + bytesLastRead;
            bytesContentRead := bytesContentRead + bytesLastRead;
            return True, NotSet;
          case ChunkFailed(k) =>
            chunk := k;
            return False, ChunkChar;
        }
      }
      bytesLastRead := readPtr - readStart;
      bytesTotalRead := bytesTotalRead + bytesLastRead;
      bytesContentRead := bytesContentRead + bytesLastRead;
      rc := Indeterminate;
    }

    method UpdateMessageWithHeaderData(msg: HttpMessage)
      requires msg.Valid()
      modifies msg`verb, msg`resource, msg`query, msg`statusCode, msg`statusMessage
      ensures msg.Valid() && msg.View() == Publish(Cfg(), old(msg.View()), head)
    {
      if isRequest {
        msg.verb, msg.resource, msg.query := head.verb, head.resource, head.query;
      } else {
        msg.statusCode, msg.statusMessage := head.statusCode, head.statusMessage;
      }
    }

    method PublishHeaders(msg: HttpMessage)
      requires msg.Valid()
      modifies this`bytesContentRemaining, this`bytesContentRead, msg`contentLength, msg`isChunked
      modifies msg`verb, msg`resource, msg`query, msg`statusCode, msg`statusMessage
      ensures msg.Valid() && View(msg) == Published(Cfg(), old(View(msg)))
    {
      bytesContentRemaining, bytesContentRead := 0, 0;
      msg.contentLength := 0;
      msg.isChunked := ChunkedCoding(head.headers);
      UpdateMessageWithHeaderData(msg);
    }

    method ChooseBody(msg: HttpMessage) returns (rc: Tribool, ec: Error)
      requires msg.Valid() && msg.contentLength == 0
      modifies this`phase, this`chunk, this`bytesContentRemaining, msg`contentLength
      ensures msg.Valid()
      ensures match HttpMachine.ChooseBody(Cfg(), old(View(msg)))
              case BodyFollows(s) => rc == Indeterminate && View(msg) == s
              case NoMoreBody(s) => rc == True && View(msg) == s
              case BadLength(s) => rc == False && ec == InvalidContentLength && View(msg) == s
    {
      hide ContentLengthOf, FindHeader;
      rc, ec := if parseHeadersOnly then True else Indeterminate, NotSet;
      if msg.isChunked {
        phase := Chunks;
        return;
      }
      if !isRequest && msg.IsContentLengthImplied() {
        phase := End;
        return True, ec;
      }
      var length := FindHeader(head.headers, "Content-Length");
      if length.Some? {
        var n := ContentLengthOf(length.value);
        if n.None? {
          return False, InvalidContentLength;
        }
        if n.value == 0 {
          phase := End;
          return True, ec;
        }
        phase := Content;
        bytesContentRemaining := n.value;
        msg.contentLength := n.value;
        if bytesContentRemaining > maxContentLength {
          msg.contentLength := maxContentLength;
        }
      } else if !isRequest {
        chunk := chunk.(cache := "");
        phase := ContentNoLength;
      } else {
        phase := End;
        rc := True;
      }
    }

    method FinishHeaderParsing(msg: HttpMessage) returns (rc: Tribool, ec: Error)
      requires msg.Valid()
      modifies this`phase, this`chunk, this`bytesContentRemaining, this`bytesContentRead, msg
      ensures msg.Valid() && fresh(msg.Buffer() - old(msg.Buffer()))
      ensures match FinishHeaders(Cfg(), old(View(msg)))
              case BodyFollows(s) => rc == Indeterminate && View(msg) == s
              case NoMoreBody(s) => rc == True && View(msg) == s
              case BadLength(s) => rc == False && ec == InvalidContentLength && View(msg) == s
    {
      PublishHeaders(msg);
      rc, ec := ChooseBody(msg);
      if rc != False {
        msg.CreateContentBuffer();
      }
    }

    method ConsumeContent(msg: HttpMessage) returns (rc: Tribool)
      requires msg.Valid() && !Eof() && bytesContentRemaining > 0
      requires bytesContentRead <= maxContentLength ==> |msg.content| == bytesContentRead
      requires Min(bytesContentRead + bytesContentRemaining, maxContentLength) <= msg.BufferSize()
      modifies this`bytesContentRemaining, this`bytesContentRead, this`bytesTotalRead, this`bytesLastRead, this`readPtr
      modifies msg`content, msg.Buffer()
      ensures msg.Valid() && readPtr <= |readBuf|
      ensures bytesLastRead == Min(|readBuf| - old(readPtr), old(bytesContentRemaining)) == readPtr - old(readPtr)
      ensures bytesContentRemaining == old(bytesContentRemaining) - bytesLastRead
      ensures bytesContentRead == old(bytesContentRead) + bytesLastRead
      ensures bytesTotalRead == old(bytesTotalRead) + bytesLastRead
      ensures msg.View() == old(msg.View()).(content :=
                old(msg.content) + Fitting(maxContentLength, old(bytesContentRead), old(Rest())[..bytesLastRead]))
      ensures rc == if bytesContentRemaining == 0 then True else Indeterminate
    {
      var contentBytesToRead;
      var contentBytesAvailable := |readBuf| - readPtr;
      if contentBytesAvailable >= bytesContentRemaining {
        rc := True;
        contentBytesToRead := bytesContentRemaining;
      } else {
        rc := Indeterminate;
        contentBytesToRead := contentBytesAvailable;
      }
      bytesContentRemaining := bytesContentRemaining - contentBytesToRead;
      StoreContent(msg, contentBytesToRead);
      readPtr := readPtr + contentBytesToRead;
      bytesContentRead := bytesContentRead + contentBytesToRead;
      bytesTotalRead := bytesTotalRead + contentBytesToRead;
      bytesLastRead := contentBytesToRead;
    }

    /** Copies the next n bytes into the content buffer, as far as they fit. */
    method StoreContent(msg: HttpMessage, n: nat)
      requires msg.Valid() && readPtr + n <= |readBuf|
      requires bytesContentRead <= maxContentLength ==> |msg.content| == bytesContentRead
      requires Min(bytesContentRead + n, maxContentLength) <= msg.BufferSize()
      modifies msg`content, msg.Buffer()
      ensures msg.Valid()
      ensures msg.View() == old(msg.View()).(content :=
                old(msg.content) + Fitting(maxContentLength, bytesContentRead, Rest()[..n]))
    {
      if bytesContentRead < maxContentLength {
        var k := n;
        if bytesContentRead + n > maxContentLength {
          k := maxContentLength - bytesContentRead;
        }
        if k > 0 {
          forall i | 0 <= i < k {
            msg.contentBuf[bytesContentRead + i] := readBuf[readPtr + i];
          }
        }
        assert k > 0 ==> msg.contentBuf[..bytesContentRead + k] == msg.content + Rest()[..k];
        msg.content := msg.content + Rest()[..k];
        assert Fitting(maxContentLength, bytesContentRead, Rest()[..n]) == Rest()[..k];
      } else {
        assert msg.content + "" == msg.content;
      }
    }

    method ConsumeContentAsNextChunk()
      requires readPtr <= |readBuf|
      modifies this`chunk, this`readPtr, this`bytesLastRead, this`bytesTotalRead, this`bytesContentRead
      ensures readPtr == |readBuf| && bytesLastRead == |old(Rest())|
      ensures chunk == old(chunk).(cache := CachedAll(maxContentLength, old(chunk.cache), old(Rest())))
      ensures bytesTotalRead == old(bytesTotalRead) + bytesLastRead
      ensures bytesContentRead == old(bytesContentRead) + bytesLastRead
    {
      hide CachedAll, Fitting;
      CachedNothing(maxContentLength, chunk.cache);
      if readPtr == |readBuf| {
        bytesLastRead := 0;
      } else {
        bytesLastRead := |readBuf| - readPtr;
        while readPtr < |readBuf|
          invariant readPtr <= |readBuf|
          invariant bytesLastRead == |old(Rest())|
          invariant bytesTotalRead == old(bytesTotalRead) && bytesContentRead == old(bytesContentRead)
          invariant chunk == old(chunk).(cache := chunk.cache)
          invariant CachedAll(maxContentLength, chunk.cache, readBuf[readPtr..])
                 == CachedAll(maxContentLength, old(chunk.cache), old(Rest()))
        {
          CachedAllStep(maxContentLength, chunk.cache, readBuf[readPtr..]);
          assert readBuf[readPtr..][1..] == readBuf[readPtr + 1..];
          if |chunk.cache| < maxContentLength {
            chunk := chunk.(cache := chunk.cache + [readBuf[readPtr]]);
          }
          readPtr := readPtr + 1;
        }
        CachedNothing(maxContentLength, chunk.cache);
        assert readBuf[readPtr..] == "";
        bytesTotalRead := bytesTotalRead + bytesLastRead;
        bytesContentRead := bytesContentRead + bytesLastRead;
      }
    }

    method Finish(msg: HttpMessage)
      requires msg.Valid()
      modifies msg
      ensures msg.Valid() && fresh(msg.Buffer() - old(msg.Buffer()))
      ensures msg.View() == HttpMachine.Finish(Cfg(), old(View(msg)))
    {
      CutOff(msg);
      if phase != Start {
        msg.ComputeMsgStatus(msg.isValid);
      }
    }

    method CutOff(msg: HttpMessage)
      requires msg.Valid()
      modifies msg
      ensures msg.Valid() && fresh(msg.Buffer() - old(msg.Buffer()))
      ensures msg.View() == HttpMachine.CutOff(Cfg(), old(View(msg)))
    {
      match phase {
        case Start =>
          msg.Empty();
        case Headers =>
          UpdateMessageWithHeaderData(msg);
          msg.Empty();
        case Content =>
          msg.isValid := false;
          if bytesContentRead < maxContentLength {
            msg.contentLength := bytesContentRead;
          }
        case Chunks =>
          msg.ConcatenateChunks(chunk.cache);
          msg.isValid := chunk.phase == SizeStart;
        case ContentNoLength =>
          msg.ConcatenateChunks(chunk.cache);
          msg.isValid := true;
        case End =>
          msg.isValid := true;
      }
    }

    /** One turn of the parse loop: a stretch of input in one message phase. */
    method ParseStretch(msg: HttpMessage, ghost cfg: Config, ghost s: State, ghost input: string)
      returns (rc: Tribool, ec: Error, parsed: nat)
      requires Valid(msg) && !Eof() && cfg == Cfg() && s == View(msg) == Touch(s) && input == Rest()
      modifies this`phase, this`head, this`chunk, this`readPtr
      modifies this`bytesContentRemaining, this`bytesContentRead, this`bytesLastRead, this`bytesTotalRead
      modifies msg, msg.Buffer()
      ensures readPtr <= |readBuf| && msg.Valid() && fresh(msg.Buffer() - old(msg.Buffer()))
      ensures cfg == Cfg() && bytesTotalRead == old(bytesTotalRead) + parsed
      ensures Advances(cfg, s, input, rc, ec, View(msg), Rest())
    {
      hide Run, Inv, Advances, Touch, CachedAll;
      match phase {
        case Start | Headers =>
          rc, ec, parsed := ParseHeaderStretch(msg, cfg, s, input);
        case Chunks =>
          rc, ec, parsed := ParseChunkStretch(msg, cfg, s, input);
        case Content =>
          rc, ec, parsed := ParseContentStretch(msg, cfg, s, input);
        case ContentNoLength =>
          NoLengthAdvances(cfg, s, input);
          ConsumeContentAsNextChunk();
          rc, ec, parsed := Indeterminate, NotSet, bytesLastRead;
          assert Rest() == "";
        case End =>
          EndAdvances(cfg, s, input);
          rc, ec, parsed := True, NotSet, 0;
      }
    }

    method ParseHeaderStretch(msg: HttpMessage, ghost cfg: Config, ghost s: State, ghost input: string)
      returns (rc: Tribool, ec: Error, parsed: nat)
      requires Valid(msg) && !Eof() && cfg == Cfg() && s == View(msg) == Touch(s) && input == Rest()
      requires phase == Start || phase == Headers
      modifies this`phase, this`head, this`chunk, this`readPtr
      modifies this`bytesContentRemaining, this`bytesContentRead, this`bytesLastRead, this`bytesTotalRead
      modifies msg
      ensures readPtr <= |readBuf| && msg.Valid() && fresh(msg.Buffer() - old(msg.Buffer()))
      ensures cfg == Cfg() && bytesTotalRead == old(bytesTotalRead) + parsed
      ensures Advances(cfg, s, input, rc, ec, View(msg), Rest())
    {
      hide Run, Inv, FinishHeaders, Continues, Agrees, Completed, Rejected, Touch, Advances, HeadersFinish;
      rc, ec := ScanHeaders(msg, cfg, s, input);
      parsed := bytesLastRead;
      if rc == True {
        ghost var t := View(msg);
        rc, ec := FinishHeaderParsing(msg);
        FinishAdvances(cfg, s, input, FinishHeaders(cfg, t), Rest(), rc, ec, View(msg));
      }
    }

    method ScanHeaders(msg: HttpMessage, ghost cfg: Config, ghost s: State, ghost input: string) returns (rc: Tribool, ec: Error)
      requires Valid(msg) && !Eof() && cfg == Cfg() && s == View(msg) == Touch(s) && input == Rest()
      requires phase == Start || phase == Headers
      modifies this`phase, this`head, this`readPtr, this`bytesLastRead, this`bytesTotalRead
      ensures readPtr <= |readBuf| && cfg == Cfg() && bytesTotalRead == old(bytesTotalRead) + bytesLastRead
      ensures rc != True ==> Advances(cfg, s, input, rc, ec, View(msg), Rest())
      ensures rc == True ==> |Rest()| <= |input| && HeadersFinish(cfg, s, input, FinishHeaders(cfg, View(msg)), Rest())
    {
      hide Run, Inv, FinishHeaders, HeadRun, Continues, Agrees, Completed, Rejected, Touch, HeadersFinish;
      HeaderStretch(cfg, s, input);
      phase := Headers;
      rc, ec := ParseHeaders();
      assert rc == True ==> View(msg) == Count(s.(phase := Headers, head := head), |input| - |Rest()|);
    }

    method ParseChunkStretch(msg: HttpMessage, ghost cfg: Config, ghost s: State, ghost input: string)
      returns (rc: Tribool, ec: Error, parsed: nat)
      requires Valid(msg) && !Eof() && cfg == Cfg() && s == View(msg) == Touch(s) && input == Rest()
      requires phase == Chunks
      modifies this`chunk, this`readPtr, this`bytesContentRead, this`bytesLastRead, this`bytesTotalRead, msg
      ensures readPtr <= |readBuf| && msg.Valid() && fresh(msg.Buffer() - old(msg.Buffer()))
      ensures cfg == Cfg() && bytesTotalRead == old(bytesTotalRead) + parsed
      ensures Advances(cfg, s, input, rc, ec, View(msg), Rest())
    {
      hide Run, Inv, ChunkRun, Continues, Agrees, Completed, Touch;
      ChunkStretch(cfg, s, input);
      rc, ec := ParseChunks();
      parsed := bytesLastRead;
      if rc == True {
        msg.ConcatenateChunks(chunk.cache);
      }
    }

    method ParseContentStretch(msg: HttpMessage, ghost cfg: Config, ghost s: State, ghost input: string)
      returns (rc: Tribool, ec: Error, parsed: nat)
      requires Valid(msg) && !Eof() && cfg == Cfg() && s == View(msg) == Touch(s) && input == Rest()
      requires phase == Content
      modifies this`bytesContentRemaining, this`bytesContentRead, this`bytesTotalRead, this`bytesLastRead, this`readPtr
      modifies msg`content, msg.Buffer()
      ensures readPtr <= |readBuf| && msg.Valid() && fresh(msg.Buffer() - old(msg.Buffer()))
      ensures cfg == Cfg() && bytesTotalRead == old(bytesTotalRead) + parsed
      ensures Advances(cfg, s, input, rc, ec, View(msg), Rest())
    {
      hide Run, Inv, Fitting, Advances, Touch;
      ContentReady(cfg, s);
      ContentAdvances(cfg, s, input);
      ec := NotSet;
      rc := ConsumeContent(msg);
      parsed := bytesLastRead;
      assert View(msg) == ContentAfter(cfg, s, input[..parsed]);
      assert Rest() == input[parsed..];
    }

    /** The loop of parse, up to a verdict or the end of the read buffer. */
    method ParseLoop(msg: HttpMessage, ghost cfg: Config, ghost s: State, ghost input: string)
      returns (rc: Tribool, ec: Error, totalBytesParsed: nat)
      requires Valid(msg) && !Eof() && cfg == Cfg() && Continues(cfg, s, input, View(msg), Rest())
      modifies this`phase, this`head, this`chunk, this`readPtr
      modifies this`bytesContentRemaining, this`bytesContentRead, this`bytesLastRead, this`bytesTotalRead
      modifies msg, msg.Buffer()
      ensures readPtr <= |readBuf| && msg.Valid() && fresh(msg.Buffer() - old(msg.Buffer()))
      ensures cfg == Cfg() && bytesTotalRead == old(bytesTotalRead) + totalBytesParsed
      ensures Decides(cfg, s, input, rc, ec, View(msg), Rest())
    {
      hide Run, Inv, Completed, Rejected;
      rc, ec, totalBytesParsed := Indeterminate, NotSet, 0;
      while rc == Indeterminate && !Eof()
        invariant readPtr <= |readBuf| && msg.Valid() && fresh(msg.Buffer() - old(msg.Buffer()))
        invariant cfg == Cfg() && bytesTotalRead == old(bytesTotalRead) + totalBytesParsed
        invariant if rc == Indeterminate then Continues(cfg, s, input, View(msg), Rest())
                  else Decides(cfg, s, input, rc, ec, View(msg), Rest())
        decreases rc == Indeterminate, |readBuf| - readPtr, phase in {Start, Headers}
      {
        var parsed;
        ghost var t, rest := View(msg), Rest();
        rc, ec, parsed := ParseStretch(msg, cfg, t, rest);
        AdvancesTowards(cfg, s, input, t, rest, rc, ec, View(msg), Rest());
        totalBytesParsed := totalBytesParsed + parsed;
      }
      RunNothing(cfg, View(msg));
      assert Eof() ==> Rest() == "";
    }

    /** The end of parse: a decided message is finished. */
    method Conclude(msg: HttpMessage, rc: Tribool)
      requires msg.Valid()
      modifies this`phase, msg
      ensures msg.Valid() && fresh(msg.Buffer() - old(msg.Buffer()))
      ensures View(msg) == match rc
                           case True => Completed(Cfg(), old(View(msg)))
                           case False => Rejected(old(View(msg)))
                           case Indeterminate => old(View(msg))
    {
      if rc == True {
        phase := End;
        Finish(msg);
      } else if rc == False {
        msg.ComputeMsgStatus(false);
      }
    }

    /** HTTPParser::parse: the verdict of the machine on what is in the read buffer. */
    method Parse(msg: HttpMessage) returns (rc: Tribool, ec: Error)
      requires Valid(msg) && !Eof()
      modifies this`phase, this`head, this`chunk, this`readPtr
      modifies this`bytesContentRemaining, this`bytesContentRead, this`bytesLastRead, this`bytesTotalRead
      modifies msg, msg.Buffer()
      ensures readPtr <= |readBuf| && msg.Valid() && fresh(msg.Buffer() - old(msg.Buffer()))
      ensures Inv(Cfg(), View(msg))
      ensures Cfg() == old(Cfg()) && bytesTotalRead == old(bytesTotalRead) + bytesLastRead
      ensures Reports(Parsed(Cfg(), old(View(msg)), old(Rest())), rc, ec, View(msg), Rest())
    {
      hide Run, Parsed, Inv, Continues, Completed, Rejected;
      ghost var cfg, s, input := Cfg(), View(msg), Rest();
      TouchContinues(cfg, s, input);
      if msg.missing {
        msg.dataAfterMissing := true;
      }
      assert View(msg) == Touch(s);
      rc, ec := ParseAll(msg, cfg, s, input);
      ReportsKeepInv(cfg, s, input, rc, ec, View(msg), Rest());
    }

    /** parse, once the data after a gap is noted. */
    method ParseAll(msg: HttpMessage, ghost cfg: Config, ghost s: State, ghost input: string) returns (rc: Tribool, ec: Error)
      requires Valid(msg) && !Eof() && cfg == Cfg() && Continues(cfg, s, input, View(msg), Rest())
      modifies this`phase, this`head, this`chunk, this`readPtr
      modifies this`bytesContentRemaining, this`bytesContentRead, this`bytesLastRead, this`bytesTotalRead
      modifies msg, msg.Buffer()
      ensures readPtr <= |readBuf| && msg.Valid() && fresh(msg.Buffer() - old(msg.Buffer()))
      ensures cfg == Cfg() && bytesTotalRead == old(bytesTotalRead) + bytesLastRead
      ensures Reports(Parsed(cfg, s, input), rc, ec, View(msg), Rest())
    {
      hide Run, Parsed, Inv, Continues, Completed, Rejected, Decides, Reports;
      var totalBytesParsed;
      rc, ec, totalBytesParsed := ParseLoop(msg, cfg, s, input);
      DecidesReports(cfg, s, input, rc, ec, View(msg), Rest());
      Conclude(msg, rc);
      bytesLastRead := totalBytesParsed;
    }

    /** Adds dummy bytes to the chunk cache until it is full. */
    method PushDummies(len: nat)
      modifies this`chunk
      ensures chunk == old(chunk).(cache := CachedAll(maxContentLength, old(chunk.cache), Dummy(len)))
    {
      var n := 0;
      assert chunk.cache + "" == chunk.cache;
      while n < len && |chunk.cache| < maxContentLength
        invariant n <= len
        invariant chunk == old(chunk).(cache := old(chunk.cache) + Dummy(n))
        invariant n == 0 || |chunk.cache| <= maxContentLength
      {
        chunk := chunk.(cache := chunk.cache + ['X']);
        n := n + 1;
        assert Dummy(n) == Dummy(n - 1) + ['X'];
      }
    }

    /** Writes dummy bytes into the content buffer. */
    method StoreDummies(msg: HttpMessage, len: nat)
      requires msg.Valid() && |msg.content| == bytesContentRead && bytesContentRead + len <= msg.BufferSize()
      modifies msg`content, msg.Buffer()
      ensures msg.Valid()
      ensures msg.View() == old(msg.View()).(content := old(msg.content) + Dummy(len))
    {
      if len > 0 {
        forall n | 0 <= n < len {
          msg.contentBuf[bytesContentRead + n] := 'X';
        }
        assert msg.contentBuf[..bytesContentRead + len] == msg.content + Dummy(len);
      }
      msg.content := msg.content + Dummy(len);
    }

    /** The body of parseMissingData, before a decided message is finished. */
    method SkipMissingData(msg: HttpMessage, len: nat, ghost s: State) returns (rc: Tribool, ec: Error)
      requires msg.Valid() && s == View(msg) && (phase.Content? ==> ContentInv(Cfg(), s))
      modifies this`chunk, this`bytesContentRemaining, this`bytesContentRead, this`bytesLastRead, this`bytesTotalRead
      modifies msg`content, msg.Buffer()
      ensures msg.Valid()
      ensures Skips(Cfg(), s, len, rc, ec, View(msg))
    {
      rc, ec := Indeterminate, NotSet;
      match phase {
        case Start | Headers =>
          rc, ec := False, MissingHeaderData;
        case Chunks =>
          rc, ec := SkipInChunk(msg, len, s);
        case Content =>
          rc, ec := SkipInContent(msg, len, s);
        case ContentNoLength =>
          PushDummies(len);
          CountMissing(len);
        case End =>
          rc := True;
      }
    }

    method SkipInChunk(msg: HttpMessage, len: nat, ghost s: State) returns (rc: Tribool, ec: Error)
      requires s == View(msg) && phase.Chunks?
      modifies this`chunk, this`bytesContentRead, this`bytesLastRead, this`bytesTotalRead
      ensures Skips(Cfg(), s, len, rc, ec, View(msg))
    {
      if chunk.phase == InChunk && chunk.read < chunk.size && chunk.size - chunk.read >= len {
        PushDummies(len);
        chunk := chunk.(read := chunk.read + len);
        CountMissing(len);
        if chunk.read == chunk.size {
          chunk := chunk.(phase := CrAfterChunk);
        }
        rc, ec := Indeterminate, NotSet;
      } else {
        rc, ec := False, MissingChunkData;
      }
    }

    method SkipInContent(msg: HttpMessage, len: nat, ghost s: State) returns (rc: Tribool, ec: Error)
      requires msg.Valid() && s == View(msg) && phase.Content? && ContentInv(Cfg(), s)
      modifies this`bytesContentRemaining, this`bytesContentRead, this`bytesLastRead, this`bytesTotalRead
      modifies msg`content, msg.Buffer()
      ensures msg.Valid()
      ensures Skips(Cfg(), s, len, rc, ec, View(msg))
    {
      hide ContentInv, Dummy;
      ContentRoom(Cfg(), s, len);
      if bytesContentRemaining < len {
        rc, ec := False, MissingTooMuchContent;
      } else {
        StoreMissing(msg, len);
        bytesContentRemaining := bytesContentRemaining - len;
        CountMissing(len);
        rc, ec := if bytesContentRemaining == 0 then True else Indeterminate, NotSet;
      }
    }

    /** A gap below the cap is filled; one that reaches beyond it is not. */
    method StoreMissing(msg: HttpMessage, len: nat)
      requires msg.Valid() && (bytesContentRead <= maxContentLength ==> |msg.content| == bytesContentRead)
      requires bytesContentRead + len <= maxContentLength ==> bytesContentRead + len <= msg.BufferSize()
      modifies msg`content, msg.Buffer()
      ensures msg.Valid()
      ensures msg.View() == if bytesContentRead + len <= maxContentLength
                            then old(msg.View()).(content := old(msg.content) + Dummy(len)) else old(msg.View())
    {
      hide Dummy;
      if bytesContentRead + len <= maxContentLength {
        StoreDummies(msg, len);
      }
    }

    method CountMissing(len: nat)
      modifies this`bytesContentRead, this`bytesLastRead, this`bytesTotalRead
      ensures bytesContentRead == old(bytesContentRead) + len && bytesTotalRead == old(bytesTotalRead) + len
      ensures bytesLastRead == len
    {
      bytesLastRead := len;
      bytesTotalRead := bytesTotalRead + len;
      bytesContentRead := bytesContentRead + len;
    }

    /** HTTPParser::parseMissingData. */
    method ParseMissingData(msg: HttpMessage, len: nat) returns (rc: Tribool, ec: Error)
      requires Valid(msg)
      modifies this`phase, this`chunk, this`bytesContentRemaining, this`bytesContentRead
      modifies this`bytesLastRead, this`bytesTotalRead, msg, msg.Buffer()
      ensures msg.Valid() && fresh(msg.Buffer() - old(msg.Buffer()))
      ensures Inv(Cfg(), View(msg))
      ensures ReportsMissing(MissingData(Cfg(), old(View(msg)), len), rc, ec, View(msg))
    {
      hide Inv, MissingData;
      ghost var cfg, s := Cfg(), View(msg);
      InvMissing(cfg, s, len);
      rc, ec := SkipAndConclude(msg, len, cfg, s);
    }

    method SkipAndConclude(msg: HttpMessage, len: nat, ghost cfg: Config, ghost s: State) returns (rc: Tribool, ec: Error)
      requires Valid(msg) && cfg == Cfg() && s == View(msg)
      modifies this`phase, this`chunk, this`bytesContentRemaining, this`bytesContentRead
      modifies this`bytesLastRead, this`bytesTotalRead, msg, msg.Buffer()
      ensures msg.Valid() && fresh(msg.Buffer() - old(msg.Buffer()))
      ensures ReportsMissing(MissingData(cfg, s, len), rc, ec, View(msg))
    {
      hide Inv, Completed, Rejected, Skips, MissingData, ReportsMissing;
      rc, ec := MarkAndSkip(msg, len, cfg, s);
      SkipsIsMissingData(cfg, s, len, rc, ec, View(msg));
      Conclude(msg, rc);
    }

    method MarkAndSkip(msg: HttpMessage, len: nat, ghost cfg: Config, ghost s: State) returns (rc: Tribool, ec: Error)
      requires Valid(msg) && cfg == Cfg() && s == View(msg)
      modifies this`chunk, this`bytesContentRemaining, this`bytesContentRead
      modifies this`bytesLastRead, this`bytesTotalRead, msg`missing, msg`content, msg.Buffer()
      ensures msg.Valid()
      ensures Skips(cfg, s.(msg := s.msg.(missing := true)), len, rc, ec, View(msg))
    {
      hide Inv, ContentInv, Skips;
      ContentFacts(cfg, s);
      msg.missing := true;
      ghost var s1 := s.(msg := s.msg.(missing := true));
      assert s1 == View(msg);
      rc, ec := SkipMissingData(msg, len, s1);
    }

    /** checkPrematureEOF: whether the end of the input comes too early. A body without
        a length ends there, and is finished. */
    method CheckPrematureEof(msg: HttpMessage) returns (premature: bool)
      requires msg.Valid()
      modifies this`phase, msg
      ensures msg.Valid() && fresh(msg.Buffer() - old(msg.Buffer()))
      ensures premature == (old(phase) != ContentNoLength)
      ensures View(msg) == if premature then old(View(msg)) else AtEof(Cfg(), old(View(msg)))
    {
      if phase != ContentNoLength {
        return true;
      }
      msg.ConcatenateChunks(chunk.cache);
      Conclude(msg, True);
      premature := false;
    }
  }
}
