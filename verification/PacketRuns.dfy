/** Whole runs of packets: either direction is parsed as one stream, what the response
    knows of its request, and when it is lent a time stamp. */
module PacketRuns {
  import opened HttpTypes
  import opened HttpMachine
  import opened HttpRuns
  import opened HttpScans
  import opened HttpGaps
  import opened Packets

  // ------------------------------------------------------------ sound parsers

  lemma ReceivedKeepsInv(cfg: Config, s: Side, p: Packet)
    requires Inv(cfg, s.state)
    ensures Inv(cfg, Received(cfg, s, p).0.state)
  {
    hide Inv, Parsed, MissingData;
    match p {
      case Data(_, bytes, _, _) => InvParsed(cfg, s.state, bytes);
      case Lost(_, len) => InvMissing(cfg, s.state, len);
    }
  }

  lemma ToldKeepsInv(cfg: Config, r: Side, request: State)
    requires Inv(cfg, r.state)
    ensures Inv(cfg, ToldOfRequest(cfg, r, request).state)
  {
    hide FinishHeaders, FindHeader, ContentLengthOf, ChunkedCoding;
    var told := r.state.(msg := r.state.msg.(requestMethod := request.msg.verb));
    assert Inv(cfg, told);
    var blank := told.(msg := told.msg.(statusCode := 0, statusMessage := ""));
    assert Inv(cfg, blank);
    InvFinish(cfg, blank);
  }

  /** After any packets, refused ones included, both parsers are as parse and
      parseMissingData expect them. */
  lemma {:induction false} ParsersStaySound(cfg: Settings, packets: seq<Packet>)
    ensures var c := Sniff(cfg, packets).0; Inv(cfg.request, c.request.state) && Inv(cfg.response, c.response.state)
  {
    hide Inv, Received, ToldOfRequest, Settled, EventOf, Sniff;
    SniffNext(cfg, packets);
    InitInv(cfg.request, "");
    InitInv(cfg.response, "");
    if packets == [] {
      ResetIsSound(cfg);
    } else {
      var n := |packets| - 1;
      var (c, p) := (Sniff(cfg, packets[..n]).0, packets[n]);
      ParsersStaySound(cfg, packets[..n]);
      if p.isRequest {
        ReceivedKeepsInv(cfg.request, c.request, p);
        ToldKeepsInv(cfg.response, c.response, Received(cfg.request, c.request, p).0.state);
      } else {
        ReceivedKeepsInv(cfg.response, c.response, p);
        SettlingKeepsSides(c.(response := Received(cfg.response, c.response, p).0));
      }
    }
  }

  lemma ResetIsSound(cfg: Settings)
    ensures Inv(cfg.request, Reset(cfg).request.state) && Inv(cfg.response, Reset(cfg).response.state)
  {
  }

  lemma SniffNext(cfg: Settings, packets: seq<Packet>)
    ensures if packets == [] then Sniff(cfg, packets) == (Reset(cfg), [])
            else
              var n := |packets| - 1;
              var (c, trace) := Sniff(cfg, packets[..n]);
              var r := ReadNext(cfg, c, packets[n]);
              Sniff(cfg, packets) == (r.conn, trace + [Call(packets[n], r.event, r.skipped)])
  {
  }

  // --------------------------------------------------- the request as one stream

  function RequestBytes(packets: seq<Packet>): string {
    if packets == [] then ""
    else
      var n := |packets| - 1;
      RequestBytes(packets[..n]) + if packets[n].isRequest && packets[n].Data? then packets[n].bytes else ""
  }

  /** However the request is cut into packets, and whatever packets of the response come
      in between, its parser is where the whole stream of request bytes leads. */
  lemma {:induction false} RequestIsOneStream(cfg: Settings, packets: seq<Packet>)
    requires forall i | 0 <= i < |packets| :: packets[i].Data? || !packets[i].isRequest
    requires HttpMachine.Run(cfg.request, Init(cfg.request, ""), RequestBytes(packets)).Undecided?
    ensures HttpMachine.Run(cfg.request, Init(cfg.request, ""), RequestBytes(packets))
         == Undecided(Sniff(cfg, packets).0.request.state)
  {
    hide HttpMachine.Step, MissingData, FinishHeaders;
    if packets != [] {
      var n := |packets| - 1;
      var p := packets[n];
      var before := RequestBytes(packets[..n]);
      RunConcat(cfg.request, Init(cfg.request, ""), before, if p.isRequest then p.bytes else "");
      assert before + "" == before;
      RequestIsOneStream(cfg, packets[..n]);
      if !p.isRequest {
        ResponseLeavesRequest(cfg, Sniff(cfg, packets[..n]).0, p);
      }
    }
  }

  lemma ResponseLeavesRequest(cfg: Settings, c: Conn, p: Packet)
    requires !p.isRequest
    ensures ReadNext(cfg, c, p).conn.request.state == c.request.state
  {
  }

  /** The packet with which the request is complete completes it as the whole stream
      would, and leaves what follows the request unread. */
  lemma RequestCompletes(cfg: Settings, packets: seq<Packet>, last: Packet)
    requires last.isRequest && last.Data?
    requires forall i | 0 <= i < |packets| :: packets[i].Data? || !packets[i].isRequest
    requires HttpMachine.Run(cfg.request, Init(cfg.request, ""), RequestBytes(packets)).Undecided?
    requires HttpMachine.Run(cfg.request, Init(cfg.request, ""), RequestBytes(packets + [last])).Complete?
    ensures var v := HttpMachine.Run(cfg.request, Init(cfg.request, ""), RequestBytes(packets + [last]));
            v.state == Sniff(cfg, packets + [last]).0.request.state && v.state.msg.isValid
  {
    hide HttpMachine.Step, MissingData, FinishHeaders;
    assert (packets + [last])[..|packets|] == packets;
    RequestIsOneStream(cfg, packets);
    RunConcat(cfg.request, Init(cfg.request, ""), RequestBytes(packets), last.bytes);
    RunCompleteIsValid(cfg.request, Init(cfg.request, ""), RequestBytes(packets + [last]));
  }

  // -------------------------------------------------- the response as one stream

  /** Where the response's parser stood when it was last told of a request or made ready
      after a 100 (Continue), and the bytes it has been given since. */
  function ResponseSince(cfg: Settings, packets: seq<Packet>): (State, string) {
    if packets == [] then (Reset(cfg).response.state, "")
    else
      var n := |packets| - 1;
      var (c, p) := (Sniff(cfg, packets[..n]).0, packets[n]);
      var reading := ReadNext(cfg, c, p);
      var (base, bytes) := ResponseSince(cfg, packets[..n]);
      if reading.skipped || Completes(cfg, c, p) then (reading.conn.response.state, "")
      else if !p.isRequest && p.Data? then (base, bytes + p.bytes)
      else (base, bytes)
  }

  /** The packet completes the request, or comes after its end. */
  predicate Completes(cfg: Settings, c: Conn, p: Packet) {
    p.isRequest && Received(cfg.request, c.request, p).1.True?
  }

  /** However a response is cut into packets, and whatever packets of the request come in
      between, its parser is where the joined bytes lead from where it was last told of
      the request, or from the last skipped 100. */
  lemma {:induction false} ResponseIsOneStream(cfg: Settings, packets: seq<Packet>)
    requires forall i | 0 <= i < |packets| :: packets[i].Data? || packets[i].isRequest
    ensures var (base, bytes) := ResponseSince(cfg, packets);
            var v := HttpMachine.Run(cfg.response, base, bytes);
            v.Undecided? ==> v == Undecided(Sniff(cfg, packets).0.response.state)
  {
    hide HttpMachine.Run, MissingData, ToldOfRequest, Settled, EventOf, Init;
    if packets == [] {
      RunNothing(cfg.response, Reset(cfg).response.state);
    } else {
      var n := |packets| - 1;
      var (c, p) := (Sniff(cfg, packets[..n]).0, packets[n]);
      var (base, bytes) := ResponseSince(cfg, packets[..n]);
      ResponseIsOneStream(cfg, packets[..n]);
      RunNothing(cfg.response, ReadNext(cfg, c, p).conn.response.state);
      if !p.isRequest {
        RunConcat(cfg.response, base, bytes, p.bytes);
        ParsedIsRun(cfg.response, c.response.state, p.bytes);
      }
    }
  }

  /** The packet that completes a response, other than a 100, does so as the joined bytes
      would. */
  lemma ResponseCompletes(cfg: Settings, packets: seq<Packet>, last: Packet)
    requires !last.isRequest && last.Data?
    requires forall i | 0 <= i < |packets| :: packets[i].Data? || packets[i].isRequest
    ensures var (base, bytes) := ResponseSince(cfg, packets);
            var v := HttpMachine.Run(cfg.response, base, bytes + last.bytes);
            var reading := ReadNext(cfg, Sniff(cfg, packets).0, last);
            HttpMachine.Run(cfg.response, base, bytes).Undecided? ==>
              (reading.skipped <==> v.Complete? && v.state.msg.statusCode == RESPONSE_CODE_CONTINUE)
              && (v.Complete? && !reading.skipped ==> reading.conn.response.state == v.state)
  {
    hide HttpMachine.Run, MissingData, Settled, EventOf, Init;
    var (base, bytes) := ResponseSince(cfg, packets);
    ResponseIsOneStream(cfg, packets);
    RunConcat(cfg.response, base, bytes, last.bytes);
    var received := Sniff(cfg, packets).0.(response := Received(cfg.response, Sniff(cfg, packets).0.response, last).0);
    SettlingKeepsSides(received);
    ParsedIsRun(cfg.response, Sniff(cfg, packets).0.response.state, last.bytes);
  }

  // -------------------------------------------------------- with lost packets

  function InputOf(p: Packet): Input {
    if p.Data? then Bytes(p.bytes) else Gap(p.len)
  }

  function RequestInputs(packets: seq<Packet>): seq<Input> {
    if packets == [] then []
    else
      var n := |packets| - 1;
      RequestInputs(packets[..n]) + if packets[n].isRequest then [InputOf(packets[n])] else []
  }

  /** The packets of the response since its parser stood at ResponseSince. */
  function ResponseInputs(cfg: Settings, packets: seq<Packet>): seq<Input> {
    if packets == [] then []
    else
      var n := |packets| - 1;
      var (c, p) := (Sniff(cfg, packets[..n]).0, packets[n]);
      if ReadNext(cfg, c, p).skipped || Completes(cfg, c, p) then []
      else ResponseInputs(cfg, packets[..n]) + if !p.isRequest then [InputOf(p)] else []
  }

  lemma UndecidedIsReceived(cfg: Config, s: Side, p: Packet)
    ensures React(cfg, s.state, InputOf(p)).Undecided? ==>
              var (t, rc) := Received(cfg, s, p);
              React(cfg, s.state, InputOf(p)) == Undecided(t.state) && rc.Indeterminate?
  {
    hide HttpMachine.Run, MissingData, Kept;
  }

  lemma {:induction false} RequestIsConsumed(cfg: Settings, packets: seq<Packet>)
    ensures var v := Consume(cfg.request, Init(cfg.request, ""), RequestInputs(packets));
            v.Undecided? ==> v == Undecided(Sniff(cfg, packets).0.request.state)
  {
    hide React, Received, ToldOfRequest, Settled, EventOf, Sniff, Init;
    SniffNext(cfg, packets);
    if packets == [] {
      ResetRequest(cfg);
    } else {
      var n := |packets| - 1;
      var (c, p) := (Sniff(cfg, packets[..n]).0, packets[n]);
      RequestIsConsumed(cfg, packets[..n]);
      if p.isRequest {
        ConsumeSnoc(cfg.request, Init(cfg.request, ""), RequestInputs(packets[..n]), InputOf(p));
        UndecidedIsReceived(cfg.request, c.request, p);
      } else {
        ResponseLeavesRequest(cfg, c, p);
        assert RequestInputs(packets) == RequestInputs(packets[..n]);
      }
    }
  }

  lemma ResetRequest(cfg: Settings)
    ensures Reset(cfg).request.state == Init(cfg.request, "")
  {
  }

  lemma {:induction false} ResponseIsConsumed(cfg: Settings, packets: seq<Packet>)
    ensures var v := Consume(cfg.response, ResponseSince(cfg, packets).0, ResponseInputs(cfg, packets));
            v.Undecided? ==> v == Undecided(Sniff(cfg, packets).0.response.state)
  {
    hide React, Received, ToldOfRequest, Settled, EventOf, Init;
    if packets != [] {
      var n := |packets| - 1;
      var (c, p) := (Sniff(cfg, packets[..n]).0, packets[n]);
      ResponseIsConsumed(cfg, packets[..n]);
      if !p.isRequest && !ReadNext(cfg, c, p).skipped {
        ConsumeSnoc(cfg.response, ResponseSince(cfg, packets[..n]).0, ResponseInputs(cfg, packets[..n]), InputOf(p));
        UndecidedIsReceived(cfg.response, c.response, p);
      } else if p.isRequest && !Completes(cfg, c, p) {
        assert ResponseInputs(cfg, packets) == ResponseInputs(cfg, packets[..n]);
      }
    }
  }

  lemma {:induction false} BaseIsSound(cfg: Settings, packets: seq<Packet>)
    ensures Inv(cfg.response, ResponseSince(cfg, packets).0)
  {
    hide Inv, Received, ToldOfRequest, Settled, EventOf, Init, ReadNext;
    ParsersStaySound(cfg, packets);
    if packets == [] {
      ResetIsSound(cfg);
    } else {
      BaseIsSound(cfg, packets[..|packets| - 1]);
    }
  }

  /** Lost packets included: as long as the gaps are accepted, the request's parser is where
      the stream with dummy bytes leads, up to the marks of loss, and its buffer is the same
      exactly if no gap has crossed the cap. */
  lemma RequestIsOneStreamWithGaps(cfg: Settings, packets: seq<Packet>)
    requires GapsAccepted(cfg.request, Init(cfg.request, ""), RequestInputs(packets))
    ensures var w := HttpMachine.Run(cfg.request, Init(cfg.request, ""), Spelled(RequestInputs(packets)));
            var t := Sniff(cfg, packets).0.request.state;
            w.Undecided? ==>
              && Unmarked(t, false) == Unmarked(w.state, false)
              && (t.msg.content == w.state.msg.content <==>
                  !Crosses(cfg.request, Init(cfg.request, ""), RequestInputs(packets)))
  {
    hide HttpMachine.Run, Inv, Unmarked, Sniff;
    InitInv(cfg.request, "");
    UnfinishedWithGaps(cfg.request, Init(cfg.request, ""), RequestInputs(packets));
    RequestIsConsumed(cfg, packets);
  }

  lemma ResponseIsOneStreamWithGaps(cfg: Settings, packets: seq<Packet>)
    requires var base := ResponseSince(cfg, packets).0;
             !base.phase.End? && GapsAccepted(cfg.response, base, ResponseInputs(cfg, packets))
    ensures var base := ResponseSince(cfg, packets).0;
            var w := HttpMachine.Run(cfg.response, base, Spelled(ResponseInputs(cfg, packets)));
            var t := Sniff(cfg, packets).0.response.state;
            w.Undecided? ==>
              && Unmarked(t, false) == Unmarked(w.state, false)
              && (t.msg.content == w.state.msg.content <==> !Crosses(cfg.response, base, ResponseInputs(cfg, packets)))
  {
    hide HttpMachine.Run, Inv, Unmarked, Sniff;
    BaseIsSound(cfg, packets);
    UnfinishedWithGaps(cfg.response, ResponseSince(cfg, packets).0, ResponseInputs(cfg, packets));
    ResponseIsConsumed(cfg, packets);
  }

  // ------------------------------------------------ what the response knows

  /** The response has been told of a complete request, and no 100 (Continue) has been
      skipped since. */
  predicate Told(cfg: Settings, packets: seq<Packet>) {
    packets != [] &&
    var n := |packets| - 1;
    var (c, p) := (Sniff(cfg, packets[..n]).0, packets[n]);
    !ReadNext(cfg, c, p).skipped && (Completes(cfg, c, p) || Told(cfg, packets[..n]))
  }

  /** What parsing does to a message that is not complete: it stays so until the parser is
      at its end, and the request method it answers is left alone. */
  ghost predicate Proceeds(s: State, t: State, done: bool) {
    && t.msg.requestMethod == s.msg.requestMethod
    && (!done && !s.phase.End? && !s.msg.isValid ==> !t.phase.End? && !t.msg.isValid)
  }

  lemma CompletedProceeds(cfg: Config, s: State)
    ensures Proceeds(s, Completed(cfg, s), true)
  {
  }

  lemma FinishHeadersProceeds(cfg: Config, s: State)
    requires s.phase.Headers?
    ensures var f := FinishHeaders(cfg, s);
            Proceeds(s, f.state, f.NoMoreBody?) && (f.BodyFollows? ==> f.state.phase in {Chunks, Content, ContentNoLength})
  {
    hide FindHeader, ContentLengthOf, ChunkedCoding, LengthImplied;
  }

  lemma BodyStepProceeds(cfg: Config, s: State, c: char)
    requires !s.phase.Start? && !s.phase.Headers?
    ensures var r := BodyStep(cfg, s, c); Proceeds(s, r.state, r.Done?)
  {
    hide ChunkStep, Completed;
    forall t ensures Proceeds(t, Completed(cfg, t), true) {
      CompletedProceeds(cfg, t);
    }
  }

  lemma StepProceeds(cfg: Config, s: State, c: char)
    ensures var r := HttpMachine.Step(cfg, s, c); Proceeds(s, r.state, r.Done?)
  {
    hide HeadStep, FinishHeaders, BodyStep, Completed;
    var t := Touch(s);
    if t.phase.Start? || t.phase.Headers? {
      var r := HeadStep(cfg, t.head, c);
      if r.HeadDone? {
        var s1 := Count(t.(phase := Headers, head := r.head), if r.consumed then 1 else 0);
        var f := FinishHeaders(cfg, s1);
        FinishHeadersProceeds(cfg, s1);
        if f.BodyFollows? {
          BodyStepProceeds(cfg, f.state, c);
        } else if f.NoMoreBody? {
          CompletedProceeds(cfg, f.state);
        }
      }
    } else {
      BodyStepProceeds(cfg, t, c);
    }
  }

  lemma {:induction false} RunProceeds(cfg: Config, s: State, data: string)
    ensures var v := HttpMachine.Run(cfg, s, data); Proceeds(s, v.state, v.Complete?)
    decreases |data|
  {
    hide HttpMachine.Step;
    if data != "" {
      StepProceeds(cfg, s, data[0]);
      if HttpMachine.Step(cfg, s, data[0]).More? {
        RunProceeds(cfg, HttpMachine.Step(cfg, s, data[0]).state, data[1..]);
      }
    }
  }

  lemma MissingProceeds(cfg: Config, s: State, n: nat)
    ensures var v := MissingData(cfg, s, n); Proceeds(s, v.state, v.Complete?)
  {
    hide Completed;
    forall t ensures Proceeds(t, Completed(cfg, t), true) {
      CompletedProceeds(cfg, t);
    }
  }

  lemma ReceivedProceeds(cfg: Config, s: Side, p: Packet)
    ensures var (t, rc) := Received(cfg, s, p); Proceeds(s.state, t.state, rc.True?)
    ensures var (t, rc) := Received(cfg, s, p); rc.True? ==> IsComplete(t.state)
  {
    hide HttpMachine.Run, MissingData, Kept;
    match p {
      case Data(_, bytes, _, _) =>
        RunProceeds(cfg, s.state, bytes);
        RunCompleteIsValid(cfg, s.state, bytes);
      case Lost(_, len) =>
        MissingProceeds(cfg, s.state, len);
        MissingCompleteIsValid(cfg, s.state, len);
    }
  }

  /** A complete message stays what it is. */
  lemma EndIsStable(cfg: Config, s: Side, p: Packet)
    requires s.state.phase.End? && s.state.msg.isValid
    ensures var t := Received(cfg, s, p).0.state;
            && t.phase.End? && t.msg.isValid && t.head == s.state.head && t.totalRead == s.state.totalRead
            && t.msg.verb == s.state.msg.verb && t.msg.statusCode == s.state.msg.statusCode
            && (IsComplete(s.state) ==> IsComplete(t))
  {
  }

  ghost predicate RequestKnown(cfg: Settings, packets: seq<Packet>) {
    var c := Sniff(cfg, packets).0;
    && (c.request.state.msg.isValid <==> c.request.state.phase.End?)
    && c.response.state.msg.requestMethod == (if Told(cfg, packets) then c.request.state.msg.verb else "")
    && (Told(cfg, packets) ==> c.request.state.msg.isValid)
  }

  lemma ToldKnows(cfg: Config, r: Side, request: State)
    ensures ToldOfRequest(cfg, r, request).state.msg.requestMethod == request.msg.verb
  {
    hide FindHeader, ContentLengthOf, ChunkedCoding, LengthImplied;
  }

  /** The response carries the method of the complete request exactly if it has been told
      of it and no 100 (Continue) has been skipped since; otherwise it carries none. */
  lemma {:induction false} SkippingForgetsTheMethod(cfg: Settings, packets: seq<Packet>)
    ensures RequestKnown(cfg, packets)
  {
    hide Received, ToldOfRequest, EventOf, Settled, Sniff;
    SniffNext(cfg, packets);
    if packets != [] {
      var n := |packets| - 1;
      SkippingForgetsTheMethod(cfg, packets[..n]);
      var (c, p) := (Sniff(cfg, packets[..n]).0, packets[n]);
      if p.isRequest {
        ReceivedProceeds(cfg.request, c.request, p);
        ToldKnows(cfg.response, c.response, Received(cfg.request, c.request, p).0.state);
        if c.request.state.phase.End? {
          EndIsStable(cfg.request, c.request, p);
        }
      } else {
        ReceivedProceeds(cfg.response, c.response, p);
        SettlingKeepsSides(c.(response := Received(cfg.response, c.response, p).0));
      }
    }
  }

  // ------------------------------------------------------- lent time stamps

  /** A response packet is lost before any with data has been seen, and the response is
      held to be complete all the same. */
  predicate LendsAt(cfg: Settings, packets: seq<Packet>, i: nat)
    requires i < |packets|
  {
    var (c, trace) := Sniff(cfg, packets[..i]);
    packets[i].Lost? && !packets[i].isRequest && Stamps(trace, false) == [] && c.response.state.phase.End?
  }

  /** A response of which nothing has been seen: if it is complete, that is because it
      answers a HEAD request without a version. */
  ghost predicate Unseen(c: Conn) {
    var r := c.response.state;
    && r.head.headers == [] && r.head.statusCode == 0 && r.phase in {Start, ContentNoLength, End}
    && (r.phase.End? ==>
          && r.msg.statusCode == 0 && c.request.state.msg.isValid && c.request.state.phase.End?
          && c.request.state.head.major == 0 && c.request.state.msg.verb == "HEAD")
  }

  ghost predicate LoanInv(c: Conn, trace: seq<Call>) {
    && (c.request.state.msg.isValid <==> c.request.state.phase.End?)
    && (Stamps(trace, false) == [] ==> Unseen(c))
    && (Loan(trace) != [] ==>
          && c.response.state.phase.End? && c.response.state.msg.isValid && c.response.state.msg.statusCode == 0
          && c.response.state.head.headers == [] && c.response.state.head.statusCode == 0
          && c.request.state.msg.isValid && c.request.state.head.major == 0 && c.request.state.msg.verb == "HEAD")
  }

  /** Being told of a request without a version, before any response header. */
  lemma ToldWithoutVersion(cfg: Config, r: Side, request: State)
    requires !cfg.isRequest && r.state.head.headers == [] && r.state.head.statusCode == 0
    ensures var t := ToldOfRequest(cfg, r, request).state;
            && t.head == r.state.head
            && (request.head.major != 0 ==> t.phase == r.state.phase && t.msg.statusCode == r.state.msg.statusCode)
            && (request.head.major == 0 ==>
                  t.msg.statusCode == 0 && t.phase == if request.msg.verb == "HEAD" then End else ContentNoLength)
            && t.msg.isValid == r.state.msg.isValid
  {
    assert FindHeader([], "Transfer-Encoding") == None && FindHeader([], "Content-Length") == None;
  }

  lemma LostUnseen(cfg: Config, s: Side, p: Packet)
    requires p.Lost? && s.state.phase in {Start, ContentNoLength, End}
    ensures var (t, rc) := Received(cfg, s, p);
            && t.state.phase == s.state.phase && t.state.head == s.state.head
            && t.state.msg.statusCode == s.state.msg.statusCode
            && (rc.True? <==> s.state.phase.End?) && (rc.True? ==> t.state.msg.isValid)
  {
  }

  lemma EndIsStableForResponse(cfg: Config, s: Side, p: Packet)
    requires s.state.phase.End? && s.state.msg.isValid
    ensures var (t, rc) := Received(cfg, s, p);
            && t.state.phase.End? && t.state.msg.isValid && t.state.head == s.state.head
            && t.state.msg.statusCode == s.state.msg.statusCode && !rc.False?
  {
  }

  lemma RequestPacketKeepsLoans(cfg: Settings, c: Conn, trace: seq<Call>, p: Packet)
    requires !cfg.response.isRequest && LoanInv(c, trace) && p.isRequest
    ensures var r := ReadNext(cfg, c, p); LoanInv(r.conn, trace + [Call(p, r.event, r.skipped)])
    ensures var r := ReadNext(cfg, c, p); Loan(trace + [Call(p, r.event, r.skipped)]) == Loan(trace)
  {
    hide Received, ToldOfRequest, Stamps, Loan, Losses, LatestTime;
    var r := ReadNext(cfg, c, p);
    TraceNext(trace, Call(p, r.event, r.skipped));
    ReceivedProceeds(cfg.request, c.request, p);
    if c.request.state.phase.End? {
      EndIsStable(cfg.request, c.request, p);
    }
    if r.conn.request.state.msg.isValid && (Loan(trace) != [] || Stamps(trace, false) == []) {
      ToldWithoutVersion(cfg.response, c.response, r.conn.request.state);
    }
  }

  lemma ResponsePacketKeepsLoans(cfg: Settings, c: Conn, trace: seq<Call>, p: Packet)
    requires !cfg.response.isRequest && LoanInv(c, trace) && !p.isRequest
    requires c.request.state.msg.isValid ==> Stamps(trace, true) != []
    ensures var r := ReadNext(cfg, c, p);
            var trace' := trace + [Call(p, r.event, r.skipped)];
            && LoanInv(r.conn, trace')
            && (Loan(trace') != [] <==>
                  Loan(trace) != [] || (p.Lost? && Stamps(trace, false) == [] && c.response.state.phase.End?))
  {
    hide Received, EventOf, Settled, Stamps, Loan, Losses, LatestTime;
    var r := ReadNext(cfg, c, p);
    TraceNext(trace, Call(p, r.event, r.skipped));
    SettlingKeepsSides(c.(response := Received(cfg.response, c.response, p).0));
    if Loan(trace) != [] {
      EndIsStableForResponse(cfg.response, c.response, p);
    } else if p.Lost? && Stamps(trace, false) == [] {
      LostUnseen(cfg.response, c.response, p);
    }
  }

  lemma {:induction false} LoansAreKept(cfg: Settings, packets: seq<Packet>)
    requires !cfg.response.isRequest
    ensures var (c, trace) := Sniff(cfg, packets);
            && LoanInv(c, trace)
            && (Loan(trace) != [] <==> exists i | 0 <= i < |packets| :: LendsAt(cfg, packets, i))
  {
    hide ReadNext, Sniff, LoanInv, LendsAt, Loan;
    SniffNext(cfg, packets);
    if packets == [] {
      NothingLent(cfg);
    } else {
      var n := |packets| - 1;
      var (c, trace) := Sniff(cfg, packets[..n]);
      var p := packets[n];
      LoansAreKept(cfg, packets[..n]);
      RunKeepsSummaries(cfg, packets[..n]);
      ValidRequestIsSeen(cfg, c, trace);
      if p.isRequest {
        RequestPacketKeepsLoans(cfg, c, trace, p);
      } else {
        ResponsePacketKeepsLoans(cfg, c, trace, p);
      }
      LendsAtLast(cfg, packets);
      forall i | 0 <= i < n ensures LendsAt(cfg, packets, i) == LendsAt(cfg, packets[..n], i) {
        LendsAtPrefix(cfg, packets, i);
      }
    }
  }

  lemma ValidRequestIsSeen(cfg: Settings, c: Conn, trace: seq<Call>)
    requires RunInv(c, trace)
    ensures c.request.state.msg.isValid ==> Stamps(trace, true) != []
  {
  }

  lemma NothingLent(cfg: Settings)
    ensures LoanInv(Reset(cfg), []) && Loan([]) == []
  {
  }

  lemma LendsAtLast(cfg: Settings, packets: seq<Packet>)
    requires packets != []
    ensures var n := |packets| - 1;
            var (c, trace) := Sniff(cfg, packets[..n]);
            var p := packets[n];
            LendsAt(cfg, packets, n) <==> p.Lost? && !p.isRequest && Stamps(trace, false) == [] && c.response.state.phase.End?
  {
  }

  lemma LendsAtPrefix(cfg: Settings, packets: seq<Packet>, i: nat)
    requires i < |packets| - 1
    ensures LendsAt(cfg, packets, i) == LendsAt(cfg, packets[..|packets| - 1], i)
  {
    assert packets[..|packets| - 1][..i] == packets[..i];
  }

  /** The request is complete, a HEAD without a version, and the response has been told of
      it and not been made ready for another one since. */
  predicate NothingExpected(cfg: Settings, packets: seq<Packet>) {
    var request := Sniff(cfg, packets).0.request.state;
    Told(cfg, packets) && request.msg.verb == "HEAD" && request.head.major == 0
  }

  lemma ToldNext(cfg: Settings, packets: seq<Packet>)
    ensures if packets == [] then !Told(cfg, packets)
            else
              var n := |packets| - 1;
              var (c, p) := (Sniff(cfg, packets[..n]).0, packets[n]);
              Told(cfg, packets) <==> !ReadNext(cfg, c, p).skipped && (Completes(cfg, c, p) || Told(cfg, packets[..n]))
  {
  }

  /** A response of which nothing has been seen counts as complete exactly if nothing is
      expected of it. */
  lemma {:induction false} UnseenIsCompleteExactlyWhen(cfg: Settings, packets: seq<Packet>)
    requires !cfg.response.isRequest && Stamps(Sniff(cfg, packets).1, false) == []
    ensures Sniff(cfg, packets).0.response.state.phase.End? <==> NothingExpected(cfg, packets)
  {
    hide Received, ToldOfRequest, EventOf, Settled, Sniff, Stamps, Losses, Loan, LatestTime, Told;
    SniffNext(cfg, packets);
    ToldNext(cfg, packets);
    if packets != [] {
      var n := |packets| - 1;
      var ((c, trace), p) := (Sniff(cfg, packets[..n]), packets[n]);
      var r := ReadNext(cfg, c, p);
      TraceNext(trace, Call(p, r.event, r.skipped));
      if !r.skipped {
        UnseenIsCompleteExactlyWhen(cfg, packets[..n]);
        LoansAreKept(cfg, packets[..n]);
        SkippingForgetsTheMethod(cfg, packets[..n]);
        if p.isRequest {
          UnseenRequestStep(cfg, c, p, Told(cfg, packets[..n]));
        } else {
          LostUnseen(cfg.response, c.response, p);
          SettlingKeepsSides(c.(response := Received(cfg.response, c.response, p).0));
        }
      }
    }
  }

  lemma UnseenRequestStep(cfg: Settings, c: Conn, p: Packet, told: bool)
    requires !cfg.response.isRequest && p.isRequest && Unseen(c)
    requires c.request.state.msg.isValid <==> c.request.state.phase.End?
    requires told ==> c.request.state.msg.isValid
    requires c.response.state.phase.End? <==> told && c.request.state.msg.verb == "HEAD" && c.request.state.head.major == 0
    ensures var d := ReadNext(cfg, c, p).conn;
            d.response.state.phase.End? <==>
            (Completes(cfg, c, p) || told) && d.request.state.msg.verb == "HEAD" && d.request.state.head.major == 0
  {
    hide Received, ToldOfRequest;
    ReceivedProceeds(cfg.request, c.request, p);
    if c.request.state.phase.End? {
      EndIsStable(cfg.request, c.request, p);
    }
    ToldWithoutVersion(cfg.response, c.response, Received(cfg.request, c.request, p).0.state);
  }

  /** The response is lent a time stamp exactly if a packet of it is lost before any with
      data has been seen, while nothing is expected of it. */
  lemma LentExactlyWhen(cfg: Settings, packets: seq<Packet>)
    requires !cfg.response.isRequest
    ensures Loan(Sniff(cfg, packets).1) != [] <==>
            exists i | 0 <= i < |packets| ::
              && packets[i].Lost? && !packets[i].isRequest
              && Stamps(Sniff(cfg, packets[..i]).1, false) == [] && NothingExpected(cfg, packets[..i])
  {
    hide Sniff, Loan, Stamps, NothingExpected;
    LoansAreKept(cfg, packets);
    forall i | 0 <= i < |packets| && Stamps(Sniff(cfg, packets[..i]).1, false) == []
      ensures Sniff(cfg, packets[..i]).0.response.state.phase.End? <==> NothingExpected(cfg, packets[..i])
    {
      UnseenIsCompleteExactlyWhen(cfg, packets[..i]);
    }
    if Loan(Sniff(cfg, packets).1) != [] {
      var i :| 0 <= i < |packets| && LendsAt(cfg, packets, i);
      assert packets[i].Lost? && NothingExpected(cfg, packets[..i]);
    }
    forall i | 0 <= i < |packets| && packets[i].Lost? && !packets[i].isRequest
               && Stamps(Sniff(cfg, packets[..i]).1, false) == [] && NothingExpected(cfg, packets[..i])
      ensures LendsAt(cfg, packets, i)
    {
    }
  }

  /** When no packet of the response is lost before its first one with data, the times are
      those of its own packets. */
  lemma NoEarlyLossNoLoan(cfg: Settings, packets: seq<Packet>)
    requires !cfg.response.isRequest
    requires forall i | 0 <= i < |packets| && packets[i].Lost? && !packets[i].isRequest ::
               Stamps(Sniff(cfg, packets[..i]).1, false) != []
    ensures var (c, trace) := Sniff(cfg, packets); Summarises(c.response.times, Stamps(trace, false), true)
  {
    hide Sniff, Loan, Stamps, Summarises, NothingExpected;
    LentExactlyWhen(cfg, packets);
    SummaryIsPlain(cfg, packets);
  }

  // A run in which the response's start is not its first time stamp.

  const HEAD_REQUEST := "HEAD /\r\n\r\n"

  function LendingRun(later: int): seq<Packet> {
    [Data(true, HEAD_REQUEST, 0, 0), Lost(false, 1), Data(false, "x", later, later)]
  }

  lemma ScanMethod(cfg: Config, more: string) returns (h: Head)
    ensures HeadRun(cfg, InitHead(true), "HEAD " + more) == HeadRun(cfg, h, more)
    ensures h == InitHead(true).(phase := UriStem, verb := "HEAD", raw := h.raw)
  {
    hide HeadRun;
    h := InitHead(true);
    assert "HEAD " + more == ['H'] + (['E'] + (['A'] + (['D'] + ([' '] + more))));
    h := Eat(cfg, h, 'H', ['E'] + (['A'] + (['D'] + ([' '] + more))));
    h := Eat(cfg, h, 'E', ['A'] + (['D'] + ([' '] + more)));
    h := Eat(cfg, h, 'A', ['D'] + ([' '] + more));
    h := Eat(cfg, h, 'D', [' '] + more);
    assert h.verb == "HEAD";
    h := Eat(cfg, h, ' ', more);
  }

  lemma ScanWithoutVersion(cfg: Config, h: Head, more: string) returns (h1: Head)
    requires h.phase.UriStem? && h.resource == ""
    ensures HeadRun(cfg, h, "/\r\n" + more) == HeadRun(cfg, h1, more)
    ensures h1.phase.HeaderStart? && h1.verb == h.verb && h1.major == 0 && h1.headers == h.headers
  {
    hide HeadRun;
    assert "/\r\n" + more == ['/'] + (['\r'] + (['\n'] + more));
    h1 := Eat(cfg, h, '/', ['\r'] + (['\n'] + more));
    h1 := Eat(cfg, h1, '\r', ['\n'] + more);
    h1 := Eat(cfg, h1, '\n', more);
  }

  lemma HeadRequestScans(cfg: Config)
    ensures var v := HeadRun(cfg, InitHead(true), HEAD_REQUEST);
            v.HeadComplete? && v.rest == "" && v.head.verb == "HEAD" && v.head.major == 0 && v.head.headers == []
  {
    hide HeadRun;
    assert HEAD_REQUEST == "HEAD " + ("/\r\n" + "\r\n");
    var h := ScanMethod(cfg, "/\r\n" + "\r\n");
    h := ScanWithoutVersion(cfg, h, "\r\n");
    LastCrlf(cfg, h);
  }

  lemma LastCrlf(cfg: Config, h: Head)
    requires h.phase.HeaderStart?
    ensures var v := HeadRun(cfg, h, "\r\n");
            v.HeadComplete? && v.rest == "" && v.head.verb == h.verb && v.head.major == h.major && v.head.headers == h.headers
  {
    assert "\r\n"[1..] == "\n";
  }

  lemma HeadRequestCompletes(cfg: Config)
    requires cfg.isRequest
    ensures var v := HttpMachine.Run(cfg, Init(cfg, ""), HEAD_REQUEST);
            v.Complete? && v.state.msg.verb == "HEAD" && v.state.head.major == 0
  {
    hide HttpMachine.Run, HeadRun;
    HeadRequestScans(cfg);
    RunHead(cfg, Init(cfg, ""), HEAD_REQUEST);
    assert FindHeader([], "Transfer-Encoding") == None && FindHeader([], "Content-Length") == None;
  }

  /** A HEAD request without a version, a lost response packet, a response packet: the
      response starts with the request, whenever its packet arrived. */
  lemma LentStartIsNotTheFirst(cfg: Settings, later: int)
    requires cfg.request.isRequest && !cfg.response.isRequest && later != 0
    ensures var (c, trace) := Sniff(cfg, LendingRun(later));
            && Stamps(trace, false) == [(later, later)] && c.response.times.start == Some(0)
            && !Summarises(c.response.times, Stamps(trace, false), true)
  {
    hide Received, ToldOfRequest, EventOf, Stamps, Loan, LatestTime, Losses, Settled, Sniff, ReadNext;
    var ps := LendingRun(later);
    assert ps[..3] == ps && ps[..3][..2] == ps[..2] && ps[..2][..1] == ps[..1] && ps[..1][..0] == [];
    SniffNext(cfg, ps[..1]);
    SniffNext(cfg, ps[..2]);
    SniffNext(cfg, ps);
    SniffNext(cfg, []);
    HeadRequestIsTold(cfg);
    var (c1, t1) := Sniff(cfg, ps[..1]);
    OneStamp(Call(ps[0], None, false));
    assert t1 == [Call(ps[0], None, false)];
    LossLends(cfg, c1, t1);
    var (c2, t2) := Sniff(cfg, ps[..2]);
    LateData(cfg, c2, t2, later);
    RunKeepsSummaries(cfg, ps);
    SummaryIsPlain(cfg, ps);
  }

  /** After the request, the response counts as complete. */
  lemma HeadRequestIsTold(cfg: Settings)
    requires cfg.request.isRequest && !cfg.response.isRequest
    ensures var r := ReadNext(cfg, Reset(cfg), Data(true, HEAD_REQUEST, 0, 0));
            && r.event == None && !r.skipped && r.conn.request.state.msg.isValid
            && r.conn.response.state.phase.End? && r.conn.response.state.msg.statusCode == 0
  {
    hide HttpMachine.Run, ToldOfRequest;
    HeadRequestCompletes(cfg.request);
    RunCompleteIsValid(cfg.request, Init(cfg.request, ""), HEAD_REQUEST);
    ToldWithoutVersion(cfg.response, Reset(cfg).response, HttpMachine.Run(cfg.request, Init(cfg.request, ""), HEAD_REQUEST).state);
  }

  lemma OneStamp(call: Call)
    requires call.packet == Data(true, HEAD_REQUEST, 0, 0) && call.event == None && !call.skipped
    ensures Stamps([call], true) == [(0, 0)] && Stamps([call], false) == [] && Loan([call]) == []
  {
    assert [] + [call] == [call];
    TraceNext([], call);
  }

  lemma LossLends(cfg: Settings, c: Conn, trace: seq<Call>)
    requires c.request.state.msg.isValid && c.response.state.phase.End? && c.response.state.msg.statusCode == 0
    requires Stamps(trace, true) == [(0, 0)] && Stamps(trace, false) == [] && Loan(trace) == []
    ensures var r := ReadNext(cfg, c, Lost(false, 1));
            var trace' := trace + [Call(Lost(false, 1), r.event, r.skipped)];
            && Loan(trace') == [(0, 0)] && Stamps(trace', false) == []
            && r.conn.response.state.phase.End? && r.conn.response.state.msg.isValid && r.conn.response.state.msg.statusCode == 0
  {
    hide Received, Settled, EventOf, Stamps, Loan, Losses;
    var r := ReadNext(cfg, c, Lost(false, 1));
    LostUnseen(cfg.response, c.response, Lost(false, 1));
    SettlingKeepsSides(c.(response := Received(cfg.response, c.response, Lost(false, 1)).0));
    TraceNext(trace, Call(Lost(false, 1), r.event, r.skipped));
  }

  lemma LateData(cfg: Settings, c: Conn, trace: seq<Call>, later: int)
    requires c.response.state.phase.End? && c.response.state.msg.isValid && c.response.state.msg.statusCode == 0
    requires Loan(trace) == [(0, 0)] && Stamps(trace, false) == []
    ensures var r := ReadNext(cfg, c, Data(false, "x", later, later));
            var trace' := trace + [Call(Data(false, "x", later, later), r.event, r.skipped)];
            Loan(trace') == [(0, 0)] && Stamps(trace', false) == [(later, later)]
  {
    hide Received, Settled, EventOf, Stamps, Loan, Losses;
    var p := Data(false, "x", later, later);
    var r := ReadNext(cfg, c, p);
    EndIsStableForResponse(cfg.response, c.response, p);
    TraceNext(trace, Call(p, r.event, r.skipped));
  }
}
