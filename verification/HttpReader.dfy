/** How messages get to the parser: from a connection in whatever pieces the network
    delivers, or from a stream one byte at a time. */
module HttpReader {
  import opened HttpTypes
  import opened HttpMachine
  import opened HttpRuns
  import opened HttpScans
  import opened HttpParser

  datatype Lifecycle = LifecycleClose | LifecycleKeepAlive | LifecyclePipelined

  /** checkKeepAlive. */
  predicate KeepAlive(h: Head) {
    FindHeader(h.headers, "Connection") != Some("close") && (h.major > 1 || (h.major == 1 && h.minor >= 1))
  }

  /** A connection: its read buffer with the bookmarked part of it, and the pieces
      that the reads to come will deliver before the peer closes. */
  class TcpConnection {
    var readBuffer: string
    var savedPtr: nat
    var lifecycle: Lifecycle
    var incoming: seq<string>

    ghost predicate Valid()
      reads this
    {
      && savedPtr <= |readBuffer|
      && (lifecycle == LifecyclePipelined ==> savedPtr < |readBuffer|)
      && forall i | 0 <= i < |incoming| :: incoming[i] != ""
    }

    /** What the next message will be read from. */
    ghost function Pending(): string
      requires Valid()
      reads this
    {
      (if lifecycle == LifecyclePipelined then readBuffer[savedPtr..] else "") + Flatten(incoming)
    }

    constructor (incoming: seq<string>)
      requires forall i | 0 <= i < |incoming| :: incoming[i] != ""
      ensures Valid() && Pending() == Flatten(incoming)
    {
      readBuffer, savedPtr, lifecycle, this.incoming := "", 0, LifecycleClose, incoming;
    }

    /** read_some: false when the connection is at its end. */
    method ReadSome() returns (ok: bool)
      requires Valid()
      modifies this`readBuffer, this`savedPtr, this`incoming, this`lifecycle
      ensures Valid() && lifecycle == LifecycleClose
      ensures ok == (old(incoming) != [])
      ensures ok ==> readBuffer == old(incoming)[0] && incoming == old(incoming)[1..]
      ensures !ok ==> incoming == old(incoming)
    {
      lifecycle := LifecycleClose;
      ok := incoming != [];
      if ok {
        readBuffer, savedPtr := incoming[0], 0;
        incoming := incoming[1..];
      }
    }
  }

  datatype Outcome = Finished | Invalid(error: Error) | ReadToEof | PrematureEof

  /** The outcome of reading one message from a stream, and what is left of it. */
  ghost predicate Received(cfg: Config, v: Verdict, outcome: Outcome, t: State) {
    match outcome
    case Finished => v.Complete? && v.state == t
    case Invalid(e) => Agrees(Failed(t, e), v)
    case ReadToEof => v.Undecided? && v.state.phase.ContentNoLength? && t == AtEof(cfg, v.state)
    case PrematureEof => v == Undecided(t) && !t.phase.ContentNoLength?
  }

  ghost predicate Aside(parser: HttpParser, msg: HttpMessage, conn: TcpConnection)
    reads msg
  {
    (parser as object) != conn && (msg as object) != conn && (conn as object) !in msg.Buffer()
  }

  /** HTTPReader::receive with consumeBytes: reads one message with a new parser. */
  method Receive(conn: TcpConnection, isRequest: bool, cap: nat, requestMethod: string)
    returns (parser: HttpParser, msg: HttpMessage, outcome: Outcome)
    requires conn.Valid()
    modifies conn
    ensures conn.Valid() && parser.Cfg() == Config(isRequest, cap, false, false)
    ensures Received(parser.Cfg(), Run(parser.Cfg(), Init(parser.Cfg(), requestMethod), old(conn.Pending())),
                     outcome, parser.View(msg))
    ensures conn.lifecycle != LifecycleClose <==> outcome.Finished? && KeepAlive(parser.head)
    ensures conn.lifecycle != LifecycleClose ==>
              conn.Pending() == Run(parser.Cfg(), Init(parser.Cfg(), requestMethod), old(conn.Pending())).rest
  {
    hide Run, Parsed, Inv, Agrees;
    parser := new HttpParser(isRequest, cap);
    var cfg := parser.Cfg();
    msg := new HttpMessage(cfg, requestMethod);
    ghost var s := Init(cfg, requestMethod);
    ghost var stream := conn.Pending();
    InitInv(cfg, requestMethod);
    if conn.lifecycle == LifecyclePipelined {
      parser.SetReadBuffer(conn.readBuffer[conn.savedPtr..]);
      conn.lifecycle := LifecycleClose;
    } else {
      var ok := conn.ReadSome();
      if !ok {
        assert stream == "";
        RunNothing(cfg, s);
        return parser, msg, PrematureEof;
      }
      parser.SetReadBuffer(conn.readBuffer);
      assert stream == conn.readBuffer + Flatten(conn.incoming);
    }
    outcome := ConsumeBytes(conn, parser, msg, cfg, s, stream);
  }

  /** The connection has ended in the middle of a message. */
  method EndOfInput(parser: HttpParser, msg: HttpMessage, ghost cfg: Config) returns (outcome: Outcome)
    requires msg.Valid() && cfg == parser.Cfg()
    modifies parser`phase, msg
    ensures outcome in {PrematureEof, ReadToEof} && Received(cfg, Undecided(old(parser.View(msg))), outcome, parser.View(msg))
  {
    hide AtEof;
    var premature := parser.CheckPrematureEof(msg);
    outcome := if premature then PrematureEof else ReadToEof;
  }

  method ConsumeBytes(conn: TcpConnection, parser: HttpParser, msg: HttpMessage,
                      ghost cfg: Config, ghost s: State, ghost stream: string)
    returns (outcome: Outcome)
    requires conn.Valid() && parser.Valid(msg) && Aside(parser, msg, conn) && conn.lifecycle == LifecycleClose
    requires !parser.Eof() && cfg == parser.Cfg()
    requires Run(cfg, s, stream) == Run(cfg, parser.View(msg), parser.Rest() + Flatten(conn.incoming))
    modifies conn, parser, msg, msg.Buffer()
    ensures conn.Valid() && parser.Cfg() == cfg
    ensures Received(cfg, Run(cfg, s, stream), outcome, parser.View(msg))
    ensures conn.lifecycle != LifecycleClose <==> outcome.Finished? && KeepAlive(parser.head)
    ensures conn.lifecycle != LifecycleClose ==> conn.Pending() == Run(cfg, s, stream).rest
    decreases |conn.incoming|
  {
    hide Run, Parsed, Inv, Agrees, Reports, AtEof, KeepAlive;
    var rc, ec := ParseNext(parser, msg, cfg, s, stream, Flatten(conn.incoming));
    match rc {
      case True =>
        outcome := Finished;
        if KeepAlive(parser.head) {
          if parser.Eof() {
            conn.lifecycle := LifecycleKeepAlive;
          } else {
            conn.lifecycle := LifecyclePipelined;
            conn.readBuffer, conn.savedPtr := parser.readBuf, parser.readPtr;
          }
        }
      case False =>
        outcome := Invalid(ec);
      case Indeterminate =>
        var ok := conn.ReadSome();
        if ok {
          parser.SetReadBuffer(conn.readBuffer);
          outcome := ConsumeBytes(conn, parser, msg, cfg, s, stream);
        } else {
          RunNothing(cfg, parser.View(msg));
          outcome := EndOfInput(parser, msg, cfg);
        }
    }
  }

  /** One piece parsed, more to come: what that says about the whole stream. */
  lemma PieceParsed(cfg: Config, s: State, stream: string, t: State, piece: string, more: string,
                    rc: Tribool, ec: Error, u: State, rest: string)
    requires Run(cfg, s, stream) == Run(cfg, t, piece + more)
    requires Reports(Parsed(cfg, t, piece), rc, ec, u, rest)
    ensures rc == Indeterminate ==> Run(cfg, s, stream) == Run(cfg, u, more)
    ensures rc == True ==> Run(cfg, s, stream) == Complete(u, rest + more)
    ensures rc == False ==> Agrees(Failed(u, ec), Run(cfg, s, stream))
  {
    hide Run, Parsed;
    ParsedIsRun(cfg, t, piece);
    RunConcat(cfg, t, piece, more);
  }

  /** Parses what is in the read buffer, as the next piece of the stream. */
  method ParseNext(parser: HttpParser, msg: HttpMessage, ghost cfg: Config, ghost s: State, ghost stream: string, ghost more: string)
    returns (rc: Tribool, ec: Error)
    requires parser.Valid(msg) && !parser.Eof() && cfg == parser.Cfg()
    requires Run(cfg, s, stream) == Run(cfg, parser.View(msg), parser.Rest() + more)
    modifies parser, msg, msg.Buffer()
    ensures parser.Valid(msg) && parser.Cfg() == cfg && fresh(msg.Buffer() - old(msg.Buffer()))
    ensures rc == Indeterminate ==> Run(cfg, s, stream) == Run(cfg, parser.View(msg), more)
    ensures rc == True ==> Run(cfg, s, stream) == Complete(parser.View(msg), parser.Rest() + more)
    ensures rc == False ==> Agrees(Failed(parser.View(msg), ec), Run(cfg, s, stream))
  {
    hide Run, Parsed, Inv, Agrees, Reports;
    ghost var t, piece := parser.View(msg), parser.Rest();
    rc, ec := parser.Parse(msg);
    PieceParsed(cfg, s, stream, t, piece, more, rc, ec, parser.View(msg), parser.Rest());
  }

  /** HTTPMessage::read: the same message, fed to the parser one byte at a time. */
  method Read(input: string, isRequest: bool, cap: nat, requestMethod: string)
    returns (parser: HttpParser, msg: HttpMessage, outcome: Outcome)
    ensures parser.Cfg() == Config(isRequest, cap, false, false)
    ensures Received(parser.Cfg(), Run(parser.Cfg(), Init(parser.Cfg(), requestMethod), input),
                     outcome, parser.View(msg))
  {
    hide Run, Parsed, Inv, Agrees, Reports, AtEof;
    parser := new HttpParser(isRequest, cap);
    var cfg := parser.Cfg();
    msg := new HttpMessage(cfg, requestMethod);
    ghost var s := Init(cfg, requestMethod);
    InitInv(cfg, requestMethod);
    var i := 0;
    assert input[0..] == input && parser.View(msg) == s;
    hide Init;
    while i < |input|
      invariant i <= |input|
      invariant fresh(parser) && fresh(msg) && fresh(msg.Buffer()) && parser.Valid(msg) && parser.Cfg() == cfg
      invariant Run(cfg, s, input) == Run(cfg, parser.View(msg), input[i..])
    {
      assert input[i..] == [input[i]] + input[i + 1..];
      parser.SetReadBuffer([input[i]]);
      var rc, ec := ParseNext(parser, msg, cfg, s, input, input[i + 1..]);
      i := i + 1;
      if rc == True {
        return parser, msg, Finished;
      } else if rc == False {
        return parser, msg, Invalid(ec);
      }
    }
    assert input[i..] == "";
    RunNothing(cfg, parser.View(msg));
    outcome := EndOfInput(parser, msg, cfg);
  }

  // -------------------------------------------------------- pipelining

  /** The messages of a stream: each one starts where the one before it ended, for as
      long as the connection is kept alive. */
  ghost function Decode(cfg: Config, stream: string): seq<State>
    decreases |stream|
  {
    RestShrinks(cfg, stream);
    var v := Run(cfg, Init(cfg, ""), stream);
    if !v.Complete? then []
    else [v.state] + if KeepAlive(v.state.head) then Decode(cfg, v.rest) else []
  }

  lemma RestShrinks(cfg: Config, stream: string)
    ensures var v := Run(cfg, Init(cfg, ""), stream); v.Complete? ==> |v.rest| < |stream|
  {
    if Run(cfg, Init(cfg, ""), stream).Complete? {
      RestIsSuffix(cfg, Init(cfg, ""), stream);
    }
  }

  /** What one message read from a stream adds to those decoded before. */
  lemma DecodeOne(cfg: Config, stream: string, outcome: Outcome, t: State, seen: seq<State>)
    requires Received(cfg, Run(cfg, Init(cfg, ""), stream), outcome, t)
    ensures seen + Decode(cfg, stream) ==
            if !outcome.Finished? then seen
            else seen + [t] + if KeepAlive(t.head) then Decode(cfg, Run(cfg, Init(cfg, ""), stream).rest) else []
  {
    hide Run, Init, KeepAlive;
    RestShrinks(cfg, stream);
  }

  /** The server's side of a connection: a new parser for every message, until one of
      them ends the connection. The messages seen are those of the uncut stream. */
  method Serve(conn: TcpConnection, cap: nat) returns (count: nat, ghost seen: seq<State>)
    requires conn.Valid()
    modifies conn
    ensures seen == Decode(Config(true, cap, false, false), old(conn.Pending())) && count == |seen|
  {
    hide Run, Init, Decode, KeepAlive;
    count, seen := 0, [];
    ghost var cfg := Config(true, cap, false, false);
    var open := true;
    while open
      invariant conn.Valid() && count == |seen|
      invariant Decode(cfg, old(conn.Pending())) == seen + if open then Decode(cfg, conn.Pending()) else []
      decreases open, |conn.Pending()|
    {
      ghost var stream := conn.Pending();
      RestShrinks(cfg, stream);
      var parser, msg, outcome := Receive(conn, true, cap, "");
      open := conn.lifecycle != LifecycleClose;
      DecodeOne(cfg, stream, outcome, parser.View(msg), seen);
      if outcome.Finished? {
        count, seen := count + 1, seen + [parser.View(msg)];
      }
    }
  }
}
