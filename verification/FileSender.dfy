/** A file on its way to a client: DiskFileSender cuts it into pieces, HTTPWriter frames
    them, and the parser on the other side puts the file together again. */
module FileSender {
  import opened HttpTypes
  import opened HttpMachine
  import opened HttpRuns
  import opened HttpScans
  import opened HttpParser
  import opened HttpCanonical
  import R = HttpResponses

  // ------------------------------------------------------- the wire format

  /** The pieces of a file when at most n bytes are sent at a time. */
  function Split(s: string, n: nat): seq<string>
    requires n > 0
    decreases |s|
  {
    if |s| <= n then (if s == "" then [] else [s]) else [s[..n]] + Split(s[n..], n)
  }

  datatype Framing = WithLength | InChunks | UntilClose

  function FramingOf(file: string, maxChunk: nat, chunksSupported: bool): Framing {
    if maxChunk == 0 || |file| <= maxChunk then WithLength
    else if chunksSupported then InChunks else UntilClose
  }

  function FramingHeader(framing: Framing, length: nat): seq<Header> {
    match framing
    case WithLength => [("Content-Length", PrintDec(length))]
    case InChunks => [("Transfer-Encoding", "chunked")]
    case UntilClose => []
  }

  function ResponseHead(headers: seq<Header>): string {
    "HTTP/1.1 200 OK\r\n" + PrintHeaders(headers)
  }

  /** Connection and the headers the sender has added. */
  function BaseHeaders(extra: seq<Header>, keepAlive: bool): seq<Header> {
    [("Connection", if keepAlive then "Keep-Alive" else "close")] + extra
  }

  /** The header block of a message with the given framing. */
  function HeadBytes(extra: seq<Header>, keepAlive: bool, framing: Framing, length: nat): string {
    ResponseHead(BaseHeaders(extra, keepAlive) + FramingHeader(framing, length))
  }

  /** The body bytes still to be sent once the header block is out. */
  function BodyWire(rest: string, framing: Framing, maxChunk: nat): string
    requires framing.InChunks? ==> maxChunk > 0
  {
    if framing.InChunks? then PrintChunks(Split(rest, maxChunk)) else rest
  }

  function Wire(file: string, maxChunk: nat, chunksSupported: bool, extra: seq<Header>, keepAlive: bool): string {
    var framing := FramingOf(file, maxChunk, chunksSupported);
    HeadBytes(extra, keepAlive && !framing.UntilClose?, framing, |file|) + BodyWire(file, framing, maxChunk)
  }

  // ------------------------------------------------------------ the writer

  /** HTTPWriter for a 200 response; sent is what has been written to the connection. */
  class HttpWriter {
    const clientSupportsChunks: bool
    const extra: seq<Header>
    var keepAlive: bool
    var contentBuffers: seq<string>
    var contentLength: nat
    var sendingChunks: bool
    var sentHeaders: bool
    var sent: string

    constructor (clientSupportsChunks: bool, extra: seq<Header>, keepAlive: bool)
      ensures this.clientSupportsChunks == clientSupportsChunks && this.extra == extra && this.keepAlive == keepAlive
      ensures Empty() && !sendingChunks && !sentHeaders && sent == ""
    {
      this.clientSupportsChunks, this.extra, this.keepAlive := clientSupportsChunks, extra, keepAlive;
      contentBuffers, contentLength := [], 0;
      sendingChunks, sentHeaders, sent := false, false, "";
    }

    ghost predicate Valid()
      reads this
    {
      contentLength == |Flatten(contentBuffers)|
    }

    ghost predicate Empty()
      reads this
    {
      contentBuffers == [] && contentLength == 0
    }

    method Clear()
      modifies this`contentBuffers, this`contentLength
      ensures Valid() && Empty()
    {
      contentBuffers, contentLength := [], 0;
    }

    method WriteNoCopy(data: string)
      requires Valid()
      modifies this`contentBuffers, this`contentLength
      ensures Valid() && Flatten(contentBuffers) == old(Flatten(contentBuffers)) + data
    {
      if |data| > 0 {
        FlattenConcat(contentBuffers, [data]);
        assert Flatten([data]) == data;
        contentBuffers := contentBuffers + [data];
        contentLength := contentLength + |data|;
      }
    }

    /** How the body is framed, given whether chunks are being sent. */
    function Mode(): Framing
      reads this
    {
      if !sendingChunks then WithLength else if clientSupportsChunks then InChunks else UntilClose
    }

    /** prepareWriteBuffers: the header block once, then the content, as a chunk if
        the message is chunked, then the final chunk if asked for. */
    method PrepareWriteBuffers(sendFinalChunk: bool) returns (writeBuffers: seq<string>)
      requires Valid()
      modifies this`sentHeaders
      ensures sentHeaders
      ensures Flatten(writeBuffers) ==
              (if old(sentHeaders) then "" else HeadBytes(extra, keepAlive, Mode(), contentLength))
              + Payload(Flatten(contentBuffers), Mode(), sendFinalChunk)
    {
      hide Flatten, HeadBytes, Payload;
      writeBuffers := [];
      FlattenOne(HeadBytes(extra, keepAlive, Mode(), contentLength));
      if !sentHeaders {
        writeBuffers := [HeadBytes(extra, keepAlive, Mode(), contentLength)];
        sentHeaders := true;
      }
      ghost var head := writeBuffers;
      var content := ContentWriteBuffers();
      writeBuffers := writeBuffers + content;
      FlattenConcat(head, content);
      if sendFinalChunk && clientSupportsChunks && sendingChunks {
        var final := ["0", CRLF, CRLF];
        FlattenThree("0", CRLF, CRLF);
        FlattenConcat(writeBuffers, final);
        writeBuffers := writeBuffers + final;
      }
      PayloadParts(Flatten(head), Flatten(content), Flatten(contentBuffers), Mode(), sendFinalChunk);
    }

    method ContentWriteBuffers() returns (writeBuffers: seq<string>)
      requires Valid()
      ensures Flatten(writeBuffers) == Payload(Flatten(contentBuffers), Mode(), false)
    {
      if contentLength == 0 {
        writeBuffers := [];
      } else if clientSupportsChunks && sendingChunks {
        FlattenChunk(PrintHex(contentLength), contentBuffers);
        writeBuffers := [PrintHex(contentLength), CRLF] + contentBuffers + [CRLF];
      } else {
        writeBuffers := contentBuffers;
      }
    }

    /** sendMoreData, with send, sendChunk and sendFinalChunk above it. */
    method SendMoreData(sendFinalChunk: bool)
      requires Valid()
      modifies this`sentHeaders, this`sent
      ensures sentHeaders
      ensures sent == old(sent)
              + ((if old(sentHeaders) then "" else HeadBytes(extra, keepAlive, Mode(), contentLength))
                 + Payload(Flatten(contentBuffers), Mode(), sendFinalChunk))
    {
      var writeBuffers := PrepareWriteBuffers(sendFinalChunk);
      sent := sent + Flatten(writeBuffers);
    }

    method SendChunk()
      requires Valid()
      modifies this`sendingChunks, this`keepAlive, this`sentHeaders, this`sent
      ensures sendingChunks && sentHeaders && keepAlive == (old(keepAlive) && clientSupportsChunks)
      ensures sent == old(sent)
              + ((if old(sentHeaders) then "" else HeadBytes(extra, keepAlive, Mode(), contentLength))
                 + Payload(Flatten(contentBuffers), Mode(), false))
    {
      sendingChunks := true;
      if !clientSupportsChunks {
        keepAlive := false;
      }
      SendMoreData(false);
    }

    method SendFinalChunk()
      requires Valid()
      modifies this`sendingChunks, this`sentHeaders, this`sent
      ensures sendingChunks && sentHeaders
      ensures sent == old(sent)
              + ((if old(sentHeaders) then "" else HeadBytes(extra, keepAlive, Mode(), contentLength))
                 + Payload(Flatten(contentBuffers), Mode(), true))
    {
      sendingChunks := true;
      SendMoreData(true);
    }
  }

  function Payload(content: string, mode: Framing, final: bool): string {
    (if content == "" then "" else if mode.InChunks? then PrintChunk(content) else content)
    + (if final && mode.InChunks? then "0\r\n\r\n" else "")
  }

  lemma PayloadParts(head: string, body: string, content: string, mode: Framing, final: bool)
    requires body == Payload(content, mode, false)
    ensures head + body + (if final && mode.InChunks? then "0\r\n\r\n" else "") == head + Payload(content, mode, final)
  {
    var c := if content == "" then "" else if mode.InChunks? then PrintChunk(content) else content;
    assert body == c;
    assert head + c + "0\r\n\r\n" == head + (c + "0\r\n\r\n");
    assert head + c + "" == head + (c + "");
  }

  lemma FlattenOne(a: string)
    ensures Flatten([a]) == a && Flatten([]) == ""
  {
    assert [a][1..] == [];
    assert a + "" == a;
  }

  lemma FlattenThree(a: string, b: string, c: string)
    ensures Flatten([a, b, c]) == a + b + c
  {
    assert [a, b, c][1..] == [b, c] && [b, c][1..] == [c] && [c][1..] == [];
    assert Flatten([c]) == c + "";
  }

  lemma FlattenChunk(size: string, contents: seq<string>)
    ensures Flatten([size, CRLF] + contents + [CRLF]) == size + (CRLF + (Flatten(contents) + CRLF))
  {
    FlattenConcat([size, CRLF] + contents, [CRLF]);
    FlattenConcat([size, CRLF], contents);
    assert [size, CRLF][1..] == [CRLF] && [CRLF][1..] == [];
    assert Flatten([size, CRLF]) == size + (CRLF + "");
    assert Flatten([CRLF]) == CRLF + "";
    assert size + (CRLF + "") + Flatten(contents) + (CRLF + "") == size + (CRLF + (Flatten(contents) + CRLF));
  }

  // ------------------------------------------------------------ the sender

  /** DiskFileSender: the file is in memory if cached, and read block by block into a
      buffer allocated for the first block otherwise. */
  class DiskFileSender {
    const file: string
    const cached: bool
    const maxChunkSize: nat
    const writer: HttpWriter
    var contentBuf: array?<char>
    var streamPos: nat
    var fileBytesToSend: nat
    var bytesSent: nat

    constructor (file: string, cached: bool, maxChunkSize: nat, writer: HttpWriter)
      ensures this.file == file && this.maxChunkSize == maxChunkSize && this.writer == writer
      ensures bytesSent == 0 && contentBuf == null && streamPos == 0
    {
      this.file, this.cached, this.maxChunkSize, this.writer := file, cached, maxChunkSize, writer;
      contentBuf, streamPos, fileBytesToSend, bytesSent := null, 0, 0, 0;
    }

    ghost function Buffer(): set<object>
      reads this
    {
      if contentBuf == null then {} else {contentBuf}
    }

    ghost predicate Valid()
      reads this, writer
    {
      && writer.Valid() && writer.Empty()
      && bytesSent <= |file| && (bytesSent > 0 ==> bytesSent < |file| && 0 < maxChunkSize < |file|)
      && (!cached ==> streamPos == bytesSent)
      && (contentBuf == null || (bytesSent > 0 && contentBuf.Length == maxChunkSize))
      && (!cached && bytesSent > 0 ==> contentBuf != null)
      && (if bytesSent == 0 then !writer.sendingChunks && !writer.sentHeaders
          else writer.sendingChunks && writer.sentHeaders)
    }

    /** The bytes of the next piece, from memory or from the file. */
    method FetchContent() returns (content: string)
      requires bytesSent + fileBytesToSend <= |file| && (!cached ==> streamPos == bytesSent)
      requires contentBuf == null || contentBuf.Length >= fileBytesToSend
      modifies this`contentBuf, this`streamPos, Buffer()
      ensures content == file[bytesSent..bytesSent + fileBytesToSend]
      ensures !cached ==> streamPos == bytesSent + fileBytesToSend && contentBuf != null
      ensures if cached || old(contentBuf) != null then contentBuf == old(contentBuf)
              else fresh(contentBuf) && contentBuf.Length == fileBytesToSend
    {
      if cached {
        content := file[bytesSent..bytesSent + fileBytesToSend];
      } else {
        if contentBuf == null {
          contentBuf := new char[fileBytesToSend];
        }
        forall i | 0 <= i < fileBytesToSend {
          contentBuf[i] := file[streamPos + i];
        }
        streamPos := streamPos + fileBytesToSend;
        content := contentBuf[..fileBytesToSend];
      }
    }

    /** What this sender has yet to put on the wire. */
    ghost function Remaining(): string
      reads this, writer
    {
      if bytesSent == 0 then Wire(file, maxChunkSize, writer.clientSupportsChunks, writer.extra, writer.keepAlive)
      else if bytesSent <= |file| && maxChunkSize > 0 then
        BodyWire(file[bytesSent..], FramingOf(file, maxChunkSize, writer.clientSupportsChunks), maxChunkSize)
      else ""
    }

    method Send()
      requires Valid() && (writer as object) != this && (writer as object) !in Buffer()
      modifies this, writer, Buffer()
      ensures writer.sent == old(writer.sent) + old(Remaining())
      decreases |file| - bytesSent, 1
    {
      hide Wire, BodyWire, PieceWire, FramingOf;
      if |file| <= bytesSent {
        SendNothing();
      } else {
        ChooseSize();
        ghost var left := Remaining();
        var content := FetchContent();
        SendPiece(content);
        HandleWrite();
        assert writer.sent == old(writer.sent) + left;
      }
    }

    method ChooseSize()
      requires bytesSent < |file| && (bytesSent > 0 ==> 0 < maxChunkSize < |file|)
      modifies this`fileBytesToSend
      ensures fileBytesToSend == (if maxChunkSize > 0 then Min(|file| - bytesSent, maxChunkSize) else |file| - bytesSent)
      ensures Remaining() == old(Remaining())
      ensures Remaining() == PieceWire(file, bytesSent, fileBytesToSend, maxChunkSize, writer.clientSupportsChunks, writer.extra, writer.keepAlive)
              + if bytesSent + fileBytesToSend >= |file| then ""
                else BodyWire(file[bytesSent + fileBytesToSend..], FramingOf(file, maxChunkSize, writer.clientSupportsChunks), maxChunkSize)
    {
      hide Wire, BodyWire, PieceWire, FramingOf;
      fileBytesToSend := |file| - bytesSent;
      if maxChunkSize > 0 && fileBytesToSend > maxChunkSize {
        fileBytesToSend := maxChunkSize;
      }
      RemainingStep(file, bytesSent, fileBytesToSend, maxChunkSize, writer.clientSupportsChunks, writer.extra, writer.keepAlive);
    }

    method SendNothing()
      requires file == "" && bytesSent == 0 && writer.Valid() && writer.Empty()
      requires !writer.sendingChunks && !writer.sentHeaders
      modifies writer
      ensures writer.sent == old(writer.sent) + old(Remaining())
    {
      writer.SendMoreData(false);
    }

    /** Hands one piece of the file to the writer. */
    method SendPiece(content: string)
      requires writer.Valid() && writer.Empty() && bytesSent < |file| && bytesSent + fileBytesToSend <= |file|
      requires content == file[bytesSent..bytesSent + fileBytesToSend]
      requires fileBytesToSend == (if maxChunkSize > 0 then Min(|file| - bytesSent, maxChunkSize) else |file| - bytesSent)
      requires if bytesSent == 0 then !writer.sendingChunks && !writer.sentHeaders
               else writer.sendingChunks && writer.sentHeaders && 0 < maxChunkSize < |file|
      modifies writer
      ensures writer.Valid()
      ensures writer.sent == old(writer.sent) + old(PieceWire(file, bytesSent, fileBytesToSend, maxChunkSize,
                                                              writer.clientSupportsChunks, writer.extra, writer.keepAlive))
      ensures bytesSent + fileBytesToSend < |file| ==> 0 < maxChunkSize < |file| && writer.sendingChunks && writer.sentHeaders
    {
      hide Payload, PrintHeaders, PrintDec;
      writer.WriteNoCopy(content);
      assert Flatten([]) + content == content;
      if bytesSent + fileBytesToSend >= |file| {
        if bytesSent > 0 {
          SameWithoutChunks(content, writer.Mode(), true);
          writer.SendFinalChunk();
        } else {
          writer.SendMoreData(false);
        }
      } else {
        writer.SendChunk();
      }
    }

    /** After a successful write: the next piece, or the end. */
    method HandleWrite()
      requires (writer as object) != this && (writer as object) !in Buffer() && writer.Valid()
      requires 0 < fileBytesToSend && bytesSent + fileBytesToSend <= |file| && (!cached ==> streamPos == bytesSent + fileBytesToSend)
      requires bytesSent + fileBytesToSend < |file| ==>
                 && 0 < maxChunkSize < |file| && writer.sendingChunks && writer.sentHeaders
                 && (contentBuf != null ==> contentBuf.Length == maxChunkSize) && (!cached ==> contentBuf != null)
      modifies this, writer, Buffer()
      ensures writer.sent == old(writer.sent) +
              old(if bytesSent + fileBytesToSend >= |file| then ""
                  else BodyWire(file[bytesSent + fileBytesToSend..], FramingOf(file, maxChunkSize, writer.clientSupportsChunks), maxChunkSize))
      decreases |file| - bytesSent, 0
    {
      bytesSent := bytesSent + fileBytesToSend;
      if bytesSent < |file| {
        writer.Clear();
        Send();
      }
    }
  }

  /** What a piece of n bytes puts on the wire, and what it leaves to be sent. */
  ghost function PieceWire(file: string, b: nat, n: nat, maxChunk: nat, chunksSupported: bool,
                           extra: seq<Header>, keepAlive: bool): string
    requires b + n <= |file|
  {
    var framing := FramingOf(file, maxChunk, chunksSupported);
    (if b > 0 then "" else HeadBytes(extra, keepAlive && !framing.UntilClose?, framing, |file|))
    + Payload(file[b..b + n], framing, b > 0 && b + n == |file|)
  }

  lemma RemainingStep(file: string, b: nat, n: nat, maxChunk: nat, chunksSupported: bool,
                      extra: seq<Header>, keepAlive: bool)
    requires b < |file| && n == (if maxChunk > 0 then Min(|file| - b, maxChunk) else |file| - b)
    requires b > 0 ==> 0 < maxChunk < |file|
    ensures var framing := FramingOf(file, maxChunk, chunksSupported);
            (if b == 0 then Wire(file, maxChunk, chunksSupported, extra, keepAlive) else BodyWire(file[b..], framing, maxChunk))
            == PieceWire(file, b, n, maxChunk, chunksSupported, extra, keepAlive)
               + if b + n == |file| then "" else BodyWire(file[b + n..], framing, maxChunk)
  {
    hide BodyWire, HeadBytes, Payload;
    var framing := FramingOf(file, maxChunk, chunksSupported);
    BodyStep(file[b..], n, framing, maxChunk);
    assert file[b..][..n] == file[b..b + n] && file[b..][n..] == file[b + n..];
    SameWithoutChunks(file[b..b + n], framing, b + n == |file|);
    assert "" + Payload(file[b..b + n], framing, b + n == |file|) == Payload(file[b..b + n], framing, b + n == |file|);
  }

  lemma SameWithoutChunks(content: string, framing: Framing, final: bool)
    ensures !framing.InChunks? ==> Payload(content, framing, final) == Payload(content, framing, false)
  {
  }

  lemma BodyStep(rest: string, n: nat, framing: Framing, maxChunk: nat)
    requires rest != "" && 0 < n <= |rest|
    requires if framing.WithLength? then n == |rest| else maxChunk > 0 && n == Min(|rest|, maxChunk)
    ensures BodyWire(rest, framing, maxChunk)
         == Payload(rest[..n], framing, n == |rest|) + if n == |rest| then "" else BodyWire(rest[n..], framing, maxChunk)
  {
    assert rest == rest[..n] + rest[n..];
    if framing.InChunks? {
      if n == |rest| {
        assert rest[..n] == rest && Split(rest, maxChunk) == [rest];
        assert PrintChunks([rest][1..]) == "0\r\n\r\n";
      } else {
        assert ([rest[..n]] + Split(rest[n..], maxChunk))[1..] == Split(rest[n..], maxChunk);
      }
    }
  }

  // --------------------------------------------------- the client's parser

  ghost predicate HoldsFile(cfg: Config, m: Message, file: string) {
    && m.isValid && m.status == Ok && m.statusCode == 200 && m.statusMessage == "OK"
    && m.content == file[..Min(|file|, cfg.cap)] && m.contentLength == |m.content|
  }

  lemma {:induction false} SplitJoins(s: string, n: nat)
    requires n > 0
    ensures Flatten(Split(s, n)) == s
    ensures forall i | 0 <= i < |Split(s, n)| :: 0 < |Split(s, n)[i]| <= n
    decreases |s|
  {
    if |s| > n {
      SplitJoins(s[n..], n);
      assert (([s[..n]]) + Split(s[n..], n))[1..] == Split(s[n..], n);
      assert s == s[..n] + s[n..];
    } else {
      FlattenOne(s);
    }
  }

  lemma BaseHeadersPlain(extra: seq<Header>, keepAlive: bool)
    requires PlainHeaders(extra)
    ensures PlainHeaders(BaseHeaders(extra, keepAlive))
  {
    var name := "Connection";
    assert |Lower(name)| != |Lower("Content-Length")| && |Lower(name)| != |Lower("Transfer-Encoding")|;
    assert ValidName(name) by {
      forall i | 0 <= i < |name| ensures IsToken(name[i]) {}
    }
  }

  /** What the sender puts on the wire, as a response in the sense of HttpResponses. */
  function SentResponse(file: string, maxChunk: nat, chunksSupported: bool, extra: seq<Header>, keepAlive: bool): (r: R.Response) {
    var framing := FramingOf(file, maxChunk, chunksSupported);
    R.Response(1, 1, 200, "OK", BaseHeaders(extra, keepAlive && !framing.UntilClose?),
               match framing case UntilClose => NoBody case WithLength => Sized(file) case InChunks => Chunked(Split(file, maxChunk)))
  }

  lemma WireIsResponse(file: string, maxChunk: nat, chunksSupported: bool, extra: seq<Header>, keepAlive: bool)
    ensures Wire(file, maxChunk, chunksSupported, extra, keepAlive)
         == SentResponse(file, maxChunk, chunksSupported, extra, keepAlive).Print()
            + if FramingOf(file, maxChunk, chunksSupported).UntilClose? then file else ""
  {
    hide PrintHeaders, PrintChunks, Split;
    var r := SentResponse(file, maxChunk, chunksSupported, extra, keepAlive);
    assert r.PrintLine() == "HTTP/1.1 200 OK\r\n" by {
      assert PrintDec(1) == "1" && PrintDec(20) == "20" && PrintDec(200) == "200";
    }
  }

  /** What the headers tell the client: whether the connection stays open, and how long the
      body is, or that it comes in chunks. */
  ghost predicate Announces(headers: seq<Header>, file: string, maxChunk: nat, chunksSupported: bool, keepAlive: bool) {
    var whole := maxChunk == 0 || |file| <= maxChunk;
    && FindHeader(headers, "Connection") == Some(if keepAlive && (whole || chunksSupported) then "Keep-Alive" else "close")
    && FindHeader(headers, "Content-Length") == (if whole then Some(PrintDec(|file|)) else None)
    && (FindHeader(headers, "Transfer-Encoding") == if !whole && chunksSupported then Some("chunked") else None)
  }

  lemma SentHeaders(file: string, maxChunk: nat, chunksSupported: bool, extra: seq<Header>, keepAlive: bool)
    requires PlainHeaders(extra) && |file| <= LONG_MAX
    ensures var r := SentResponse(file, maxChunk, chunksSupported, extra, keepAlive);
            Announces(r.headers + r.body.Framing(), file, maxChunk, chunksSupported, keepAlive)
  {
    hide ValidHeaders, PrintDec, Lower;
    var r := SentResponse(file, maxChunk, chunksSupported, extra, keepAlive);
    var (headers, framing) := (r.headers, r.body.Framing());
    BaseHeadersPlain(extra, keepAlive && !FramingOf(file, maxChunk, chunksSupported).UntilClose?);
    NoCoding(headers);
    FindHeaderConcat(headers, framing, "Connection");
    FindHeaderConcat(headers, framing, "Content-Length");
    FindHeaderConcat(headers, framing, "Transfer-Encoding");
    NamesDiffer();
    assert framing != [] ==> framing[1..] == [];
  }

  lemma NoCoding(headers: seq<Header>)
    requires PlainHeaders(headers)
    ensures FindHeader(headers, "Content-Length") == None && FindHeader(headers, "Transfer-Encoding") == None
  {
    FindHeaderConcat(headers, [], "Content-Length");
    FindHeaderConcat(headers, [], "Transfer-Encoding");
  }

  lemma NamesDiffer()
    ensures !SameName("Content-Length", "Transfer-Encoding") && !SameName("Transfer-Encoding", "Content-Length")
    ensures forall s :: SameName(s, s)
  {
    assert |Lower("Content-Length")| != |Lower("Transfer-Encoding")|;
  }

  /** Whatever the size limit and whatever the client supports, the client's parser
      ends up with the file, up to its cap: at the last byte of the wire, or when the
      connection closes if the body has no other end. */
  lemma FileArrives(cfg: Config, requestMethod: string, file: string, maxChunk: nat, chunksSupported: bool,
                    extra: seq<Header>, keepAlive: bool)
    requires !cfg.isRequest && !cfg.headersOnly && requestMethod != "HEAD"
    requires PlainHeaders(extra) && |file| <= LONG_MAX
    ensures var v := Run(cfg, Init(cfg, requestMethod), Wire(file, maxChunk, chunksSupported, extra, keepAlive));
            if FramingOf(file, maxChunk, chunksSupported).UntilClose? then
              v.Undecided? && v.state.phase.ContentNoLength? && HoldsFile(cfg, AtEof(cfg, v.state).msg, file)
            else v.Complete? && v.rest == "" && HoldsFile(cfg, v.state.msg, file)
    ensures var v := Run(cfg, Init(cfg, requestMethod), Wire(file, maxChunk, chunksSupported, extra, keepAlive));
            Announces(v.state.head.headers, file, maxChunk, chunksSupported, keepAlive)
  {
    hide Run, AtEof, Wire, PlainHeaders, Announces;
    SentHeaders(file, maxChunk, chunksSupported, extra, keepAlive);
    var framing := FramingOf(file, maxChunk, chunksSupported);
    var r := SentResponse(file, maxChunk, chunksSupported, extra, keepAlive);
    BaseHeadersPlain(extra, keepAlive && !framing.UntilClose?);
    if framing.InChunks? {
      SplitJoins(file, maxChunk);
    }
    WireIsResponse(file, maxChunk, chunksSupported, extra, keepAlive);
    R.ResponseReadsBack(cfg, requestMethod, r, if framing.UntilClose? then file else "");
  }
}
