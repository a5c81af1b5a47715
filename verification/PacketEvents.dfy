/** What an event says of the two messages it is made from: how many bytes each has taken of
    its stream, the code of the response, and what the losses have made of either. */
module PacketEvents {
  import opened HttpTypes
  import opened HttpMachine
  import opened HttpRuns
  import opened HttpScans
  import opened HttpGaps
  import opened Packets
  import opened PacketRuns

  // ------------------------------------------------------------ marks of loss

  /** Whether packets of one direction were lost, and whether any with data came after a
      loss; a skipped response starts that direction anew. */
  function Marks(trace: seq<Call>, isRequest: bool): (bool, bool) {
    if trace == [] then (false, false)
    else
      var (p, (lost, resumed)) := (trace[|trace| - 1].packet, Marks(trace[..|trace| - 1], isRequest));
      if trace[|trace| - 1].skipped && !isRequest then (false, false)
      else if p.isRequest != isRequest then (lost, resumed)
      else if p.Lost? then (true, resumed)
      else (lost, resumed || (lost && p.bytes != ""))
  }

  /** A complete message is whole if nothing was lost, partial if data came after a loss,
      and truncated otherwise. */
  function StatusFor(marks: (bool, bool)): Status {
    if !marks.0 then Ok else if marks.1 then Partial else Truncated
  }

  function MarksOf(s: State): (bool, bool) { (s.msg.missing, s.msg.dataAfterMissing) }

  lemma FinishHeadersMarks(cfg: Config, s: State)
    ensures MarksOf(FinishHeaders(cfg, s).state) == MarksOf(s)
  {
    hide FindHeader, ContentLengthOf, ChunkedCoding, LengthImplied;
  }

  lemma CompletedMarks(cfg: Config, s: State)
    ensures MarksOf(Completed(cfg, s)) == MarksOf(s)
  {
  }

  lemma BodyStepMarks(cfg: Config, s: State, c: char)
    requires !s.phase.Start? && !s.phase.Headers?
    ensures MarksOf(BodyStep(cfg, s, c).state) == MarksOf(s)
  {
    hide ChunkStep, Completed;
    forall t ensures MarksOf(Completed(cfg, t)) == MarksOf(t) {
      CompletedMarks(cfg, t);
    }
  }

  lemma StepMarks(cfg: Config, s: State, c: char)
    ensures MarksOf(HttpMachine.Step(cfg, s, c).state) == MarksOf(Touch(s))
  {
    hide HeadStep, FinishHeaders, BodyStep, Completed;
    var t := Touch(s);
    if t.phase.Start? || t.phase.Headers? {
      var r := HeadStep(cfg, t.head, c);
      if r.HeadDone? {
        var s1 := Count(t.(phase := Headers, head := r.head), if r.consumed then 1 else 0);
        var f := FinishHeaders(cfg, s1);
        FinishHeadersMarks(cfg, s1);
        FinishHeadersProceeds(cfg, s1);
        if f.BodyFollows? {
          BodyStepMarks(cfg, f.state, c);
        } else if f.NoMoreBody? {
          CompletedMarks(cfg, f.state);
        }
      }
    } else {
      BodyStepMarks(cfg, t, c);
    }
  }

  lemma {:induction false} RunMarks(cfg: Config, s: State, data: string)
    ensures MarksOf(HttpMachine.Run(cfg, s, data).state) == if data == "" then MarksOf(s) else MarksOf(Touch(s))
    decreases |data|
  {
    hide HttpMachine.Step;
    if data != "" {
      StepMarks(cfg, s, data[0]);
      if HttpMachine.Step(cfg, s, data[0]).More? {
        RunMarks(cfg, HttpMachine.Step(cfg, s, data[0]).state, data[1..]);
      }
    }
  }

  lemma MissingMarks(cfg: Config, s: State, n: nat)
    ensures MarksOf(MissingData(cfg, s, n).state) == (true, s.msg.dataAfterMissing)
  {
    hide Completed;
    forall t ensures MarksOf(Completed(cfg, t)) == MarksOf(t) {
      CompletedMarks(cfg, t);
    }
  }

  lemma ReceivedMarks(cfg: Config, s: Side, p: Packet)
    ensures MarksOf(Received(cfg, s, p).0.state) ==
            if p.Lost? then (true, s.state.msg.dataAfterMissing)
            else (s.state.msg.missing, s.state.msg.dataAfterMissing || (s.state.msg.missing && p.bytes != ""))
  {
    hide HttpMachine.Run, MissingData, Kept;
    match p {
      case Data(_, bytes, _, _) => RunMarks(cfg, s.state, bytes);
      case Lost(_, len) => MissingMarks(cfg, s.state, len);
    }
  }

  lemma ToldMarks(cfg: Config, r: Side, request: State)
    ensures MarksOf(ToldOfRequest(cfg, r, request).state) == MarksOf(r.state)
  {
    hide FinishHeaders;
    forall t ensures MarksOf(FinishHeaders(cfg, t).state) == MarksOf(t) {
      FinishHeadersMarks(cfg, t);
    }
  }

  lemma {:induction false} MarksNext(trace: seq<Call>, call: Call, isRequest: bool)
    ensures var (p, (lost, resumed)) := (call.packet, Marks(trace, isRequest));
            Marks(trace + [call], isRequest) ==
            if call.skipped && !isRequest then (false, false)
            else if p.isRequest != isRequest then (lost, resumed)
            else if p.Lost? then (true, resumed)
            else (lost, resumed || (lost && p.bytes != ""))
  {
    assert (trace + [call])[..|trace|] == trace;
  }

  /** Both messages carry the marks of the packets seen, refused ones included, and the
      request's status follows from them once it is complete. */
  lemma {:induction false} MarksFollow(cfg: Settings, packets: seq<Packet>)
    ensures var (c, trace) := Sniff(cfg, packets);
            && MarksOf(c.request.state) == Marks(trace, true) && MarksOf(c.response.state) == Marks(trace, false)
            && (c.request.state.msg.isValid ==> IsComplete(c.request.state))
  {
    hide Received, ToldOfRequest, EventOf, Settled, Sniff, Marks;
    SniffNext(cfg, packets);
    if packets == [] {
      NoMarks(cfg);
    } else {
      var n := |packets| - 1;
      var ((c, trace), p) := (Sniff(cfg, packets[..n]), packets[n]);
      MarksFollow(cfg, packets[..n]);
      var r := ReadNext(cfg, c, p);
      MarksNext(trace, Call(p, r.event, r.skipped), true);
      MarksNext(trace, Call(p, r.event, r.skipped), false);
      if p.isRequest {
        ReceivedMarks(cfg.request, c.request, p);
        RequestStaysComplete(cfg, packets[..n], p);
        ToldMarks(cfg.response, c.response, Received(cfg.request, c.request, p).0.state);
      } else {
        ReceivedMarks(cfg.response, c.response, p);
        SettlingKeepsSides(c.(response := Received(cfg.response, c.response, p).0));
      }
    }
  }

  lemma NoMarks(cfg: Settings)
    ensures MarksOf(Reset(cfg).request.state) == MarksOf(Reset(cfg).response.state) == (false, false)
    ensures forall isRequest :: Marks([], isRequest) == (false, false)
    ensures !Reset(cfg).request.state.msg.isValid
  {
  }

  lemma RequestStaysComplete(cfg: Settings, packets: seq<Packet>, p: Packet)
    requires var s := Sniff(cfg, packets).0.request.state; s.msg.isValid ==> IsComplete(s)
    ensures var t := Received(cfg.request, Sniff(cfg, packets).0.request, p).0.state; t.msg.isValid ==> IsComplete(t)
  {
    hide Received, Sniff, ToldOfRequest;
    var s := Sniff(cfg, packets).0.request;
    SkippingForgetsTheMethod(cfg, packets);
    ReceivedProceeds(cfg.request, s, p);
    if s.state.phase.End? {
      EndIsStable(cfg.request, s, p);
    }
  }

  // ------------------------------------------------------------ bytes taken

  /** The message is complete and keeps what it was completed with. */
  predicate Keeps(s: State, t: State) {
    && t.phase.End? && t.msg.isValid && t.totalRead == s.totalRead
    && t.msg.statusCode == s.msg.statusCode
  }

  lemma CompleteIsReceived(cfg: Config, s: Side, p: Packet)
    ensures var (v, (t, rc)) := (React(cfg, s.state, InputOf(p)), Received(cfg, s, p));
            && (v.Complete? <==> rc.True?)
            && (v.Complete? ==> t.state == v.state && Keeps(v.state, t.state))
  {
    hide HttpMachine.Run, MissingData, Kept;
    match p {
      case Data(_, bytes, _, _) => RunCompleteIsValid(cfg, s.state, bytes);
      case Lost(_, len) => MissingCompleteIsValid(cfg, s.state, len);
    }
  }

  /** As long as no packet is refused, the request's parser is where its packets lead, and
      stays there once they have completed the request. */
  lemma {:induction false} RequestTakes(cfg: Settings, packets: seq<Packet>)
    ensures var (v, s) := (Consume(cfg.request, Init(cfg.request, ""), RequestInputs(packets)), Sniff(cfg, packets).0.request.state);
            && (v.Undecided? ==> v.state == s && !s.msg.isValid)
            && (v.Complete? ==> Keeps(v.state, s))
  {
    hide React, Received, ToldOfRequest, Settled, EventOf, Sniff, Init;
    SniffNext(cfg, packets);
    if packets == [] {
      ResetRequest(cfg);
      NoMarks(cfg);
    } else {
      var n := |packets| - 1;
      var (c, p) := (Sniff(cfg, packets[..n]).0, packets[n]);
      RequestTakes(cfg, packets[..n]);
      if p.isRequest {
        ConsumeSnoc(cfg.request, Init(cfg.request, ""), RequestInputs(packets[..n]), InputOf(p));
        UndecidedIsReceived(cfg.request, c.request, p);
        CompleteIsReceived(cfg.request, c.request, p);
        SkippingForgetsTheMethod(cfg, packets[..n]);
        ReceivedProceeds(cfg.request, c.request, p);
        if c.request.state.phase.End? {
          EndIsStable(cfg.request, c.request, p);
        }
      } else {
        ResponseLeavesRequest(cfg, c, p);
        assert RequestInputs(packets) == RequestInputs(packets[..n]);
      }
    }
  }

  /** The same for the response, from where it was last told of the request or made ready
      after a 100 (Continue). */
  lemma {:induction false} ResponseTakes(cfg: Settings, packets: seq<Packet>)
    ensures var (v, s) := (Consume(cfg.response, ResponseSince(cfg, packets).0, ResponseInputs(cfg, packets)),
                           Sniff(cfg, packets).0.response.state);
            && (v.Undecided? ==> v.state == s)
            && (v.Complete? ==> Keeps(v.state, s))
  {
    hide React, Received, ToldOfRequest, Settled, EventOf, Init, Keeps;
    if packets != [] {
      var n := |packets| - 1;
      var (c, p) := (Sniff(cfg, packets[..n]).0, packets[n]);
      ResponseTakes(cfg, packets[..n]);
      if !p.isRequest && !ReadNext(cfg, c, p).skipped {
        ConsumeSnoc(cfg.response, ResponseSince(cfg, packets[..n]).0, ResponseInputs(cfg, packets[..n]), InputOf(p));
        UndecidedIsReceived(cfg.response, c.response, p);
        CompleteIsReceived(cfg.response, c.response, p);
        SettlingKeepsSides(c.(response := Received(cfg.response, c.response, p).0));
        var v := Consume(cfg.response, ResponseSince(cfg, packets[..n]).0, ResponseInputs(cfg, packets[..n]));
        if v.Complete? {
          StaysKept(cfg.response, c.response, p, v.state);
        }
      } else if p.isRequest && !Completes(cfg, c, p) {
        assert ResponseInputs(cfg, packets) == ResponseInputs(cfg, packets[..n]);
      }
    }
  }

  lemma StaysKept(cfg: Config, s: Side, p: Packet, done: State)
    requires Keeps(done, s.state)
    ensures Keeps(done, Received(cfg, s, p).0.state)
  {
    hide Received;
    EndIsStable(cfg, s, p);
  }

  /** The response packets from the last skipped 100 to where the response was last told of
      the request. */
  function EarlyInputs(cfg: Settings, packets: seq<Packet>): seq<Input> {
    if packets == [] then []
    else
      var n := |packets| - 1;
      var (c, p) := (Sniff(cfg, packets[..n]).0, packets[n]);
      if ReadNext(cfg, c, p).skipped then []
      else if Completes(cfg, c, p) then EarlyInputs(cfg, packets[..n]) + ResponseInputs(cfg, packets[..n])
      else EarlyInputs(cfg, packets[..n])
  }

  /** The early packets were neither refused nor did they complete the response. */
  predicate EarlyUndecided(cfg: Settings, packets: seq<Packet>) {
    packets == [] ||
    var n := |packets| - 1;
    var (c, p) := (Sniff(cfg, packets[..n]).0, packets[n]);
    ReadNext(cfg, c, p).skipped
    || (EarlyUndecided(cfg, packets[..n])
        && (Completes(cfg, c, p) ==>
              Consume(cfg.response, ResponseSince(cfg, packets[..n]).0, ResponseInputs(cfg, packets[..n])).Undecided?))
  }

  lemma {:induction false} LengthsAdd(a: seq<Input>, b: seq<Input>)
    ensures InputLength(a + b) == InputLength(a) + InputLength(b)
    decreases |a|
  {
    if a == [] {
      assert a + b == b;
    } else {
      assert (a + b)[1..] == a[1..] + b;
      LengthsAdd(a[1..], b);
    }
  }

  lemma ToldCounts(cfg: Config, r: Side, request: State)
    ensures ToldOfRequest(cfg, r, request).state.totalRead == r.state.totalRead
  {
    hide FinishHeaders;
    forall t ensures FinishHeaders(cfg, t).state.totalRead == t.totalRead {
      HeadersKeepCount(cfg, t);
    }
  }

  lemma NothingRead(cfg: Settings)
    ensures Reset(cfg).response.state.totalRead == Init(cfg.response, "").totalRead == 0
  {
  }

  lemma {:induction false} BaseCounts(cfg: Settings, packets: seq<Packet>)
    requires EarlyUndecided(cfg, packets)
    ensures ResponseSince(cfg, packets).0.totalRead == InputLength(EarlyInputs(cfg, packets))
  {
    hide Received, ToldOfRequest, Settled, EventOf, Init, Consume, Sniff;
    NothingRead(cfg);
    if packets != [] {
      var n := |packets| - 1;
      var (c, p) := (Sniff(cfg, packets[..n]).0, packets[n]);
      if !ReadNext(cfg, c, p).skipped {
        BaseCounts(cfg, packets[..n]);
        if Completes(cfg, c, p) {
          var (base, inputs) := (ResponseSince(cfg, packets[..n]).0, ResponseInputs(cfg, packets[..n]));
          ResponseTakes(cfg, packets[..n]);
          ConsumeCounts(cfg.response, base, inputs);
          LengthsAdd(EarlyInputs(cfg, packets[..n]), inputs);
          ToldCounts(cfg.response, c.response, Received(cfg.request, c.request, p).0.state);
        }
      }
    }
  }

  // ---------------------------------------------------------------- the event

  lemma {:induction false} SpelledLength(inputs: seq<Input>)
    ensures |Spelled(inputs)| == InputLength(inputs)
  {
    if inputs != [] {
      SpelledLength(inputs[1..]);
    }
  }

  /** A message that its packets complete takes all of its stream but what the verdict on
      the stream leaves. */
  lemma StreamTakes(cfg: Config, s: State, inputs: seq<Input>)
    requires Inv(cfg, s) && !s.phase.End? && GapsAccepted(cfg, s, inputs)
    ensures var (v, w) := (Consume(cfg, s, inputs), HttpMachine.Run(cfg, s, Spelled(inputs)));
            && (v.Complete? <==> w.Complete?) && (v.Failed? <==> w.Failed?)
            && (v.Complete? ==>
                  && v.state.totalRead + |w.rest| == s.totalRead + |Spelled(inputs)|
                  && v.state.msg.statusCode == w.state.msg.statusCode)
  {
    hide HttpMachine.Run, Inv, GapsAccepted, Unmarked;
    GapsAreDummies(cfg, s, inputs);
    ConsumeCounts(cfg, s, inputs);
    SpelledLength(inputs);
    SpelledLength(Left(cfg, s, inputs));
    SameCounts(Consumed(cfg, s, inputs), HttpMachine.Run(cfg, s, Spelled(inputs)));
  }

  lemma SameCounts(v: Verdict, w: Verdict)
    requires SameUnmarked(v, w, false)
    ensures v.state.totalRead == w.state.totalRead && v.state.msg.statusCode == w.state.msg.statusCode
  {
  }

  lemma EventIsOfSides(c: Conn)
    ensures var e := EventOf(c);
            && e.csBytes == c.request.state.totalRead && e.scBytes == c.response.state.totalRead
            && e.status == c.response.state.msg.statusCode
            && e.requestStatus == c.request.state.msg.status && e.responseStatus == c.response.state.msg.status
  {
  }

  /** The last call of a run adds an event: both sides are complete, and the event is made
      of them. */
  lemma EventAtLast(cfg: Settings, packets: seq<Packet>)
    requires packets != [] && Sniff(cfg, packets).1[|packets| - 1].event.Some?
    ensures var (c, trace) := Sniff(cfg, packets);
            var before := Sniff(cfg, packets[..|packets| - 1]).0;
            var (e, p) := (trace[|packets| - 1].event.value, packets[|packets| - 1]);
            && !p.isRequest && Received(cfg.response, before.response, p).1.True?
            && !ReadNext(cfg, before, p).skipped
            && c.request.state.msg.isValid && IsComplete(c.response.state)
            && e.csBytes == c.request.state.totalRead && e.scBytes == c.response.state.totalRead
            && e.status == c.response.state.msg.statusCode
            && e.requestStatus == c.request.state.msg.status && e.responseStatus == c.response.state.msg.status
  {
    hide Received, ToldOfRequest, Settled, EventOf, Sniff, IsComplete;
    SniffNext(cfg, packets);
    var n := |packets| - 1;
    var (c, p) := (Sniff(cfg, packets[..n]).0, packets[n]);
    var received := c.(response := Received(cfg.response, c.response, p).0);
    SettlingKeepsSides(received);
    EventIsOfSides(Settled(received));
    ReceivedProceeds(cfg.response, c.response, p);
    SameCompletion(received.response, Settled(received).response);
  }

  lemma SameCompletion(s: Side, t: Side)
    requires t.state == s.state
    ensures IsComplete(t.state) == IsComplete(s.state)
  {
  }

  /** The statuses of the event that the last call of a run adds follow from the losses of
      either side, whatever the packets. */
  lemma EventStatuses(cfg: Settings, packets: seq<Packet>)
    requires packets != [] && Sniff(cfg, packets).1[|packets| - 1].event.Some?
    ensures var (_, trace) := Sniff(cfg, packets);
            var e := trace[|packets| - 1].event.value;
            e.requestStatus == StatusFor(Marks(trace, true)) && e.responseStatus == StatusFor(Marks(trace, false))
  {
    hide Sniff, Marks, Received, ReadNext;
    EventAtLast(cfg, packets);
    MarksFollow(cfg, packets);
  }

  /** The bytes and the code of the event that the last call of a run adds: as long as no
      packet is refused, they are those of the messages that the two streams lead to, with
      dummy bytes for what was lost. */
  lemma EventDescribesStreams(cfg: Settings, packets: seq<Packet>)
    requires packets != [] && Sniff(cfg, packets).1[|packets| - 1].event.Some?
    requires GapsAccepted(cfg.request, Init(cfg.request, ""), RequestInputs(packets))
    requires var base := ResponseSince(cfg, packets).0;
             !base.phase.End? && GapsAccepted(cfg.response, base, ResponseInputs(cfg, packets))
    requires !HttpMachine.Run(cfg.request, Init(cfg.request, ""), Spelled(RequestInputs(packets))).Failed?
    requires !HttpMachine.Run(cfg.response, ResponseSince(cfg, packets).0, Spelled(ResponseInputs(cfg, packets))).Failed?
    ensures var (e, base) := (Sniff(cfg, packets).1[|packets| - 1].event.value, ResponseSince(cfg, packets).0);
            var (q, r) := (Spelled(RequestInputs(packets)), Spelled(ResponseInputs(cfg, packets)));
            var (v, w) := (HttpMachine.Run(cfg.request, Init(cfg.request, ""), q), HttpMachine.Run(cfg.response, base, r));
            && v.Complete? && w.Complete?
            && e.csBytes == |q| - |v.rest|
            && e.scBytes == base.totalRead + |r| - |w.rest|
            && (EarlyUndecided(cfg, packets) ==> e.scBytes == |Spelled(EarlyInputs(cfg, packets))| + |r| - |w.rest|)
            && e.status == w.state.msg.statusCode
  {
    hide HttpMachine.Run, Sniff, Consume, Spelled, GapsAccepted, Inv, ResponseSince, RequestInputs, ResponseInputs,
         EarlyInputs, EarlyUndecided, Init, Received, ReadNext;
    var base := ResponseSince(cfg, packets).0;
    EventAtLast(cfg, packets);
    InitInv(cfg.request, "");
    StartIsOpen(cfg.request);
    BaseIsSound(cfg, packets);
    StreamTakes(cfg.request, Init(cfg.request, ""), RequestInputs(packets));
    StreamTakes(cfg.response, base, ResponseInputs(cfg, packets));
    RequestTakes(cfg, packets);
    ResponseTakes(cfg, packets);
    LastCompletes(cfg, packets);
    if EarlyUndecided(cfg, packets) {
      BaseCounts(cfg, packets);
      SpelledLength(EarlyInputs(cfg, packets));
    }
  }

  lemma StartIsOpen(cfg: Config)
    ensures !Init(cfg, "").phase.End? && Init(cfg, "").totalRead == 0
  {
  }

  /** The packet that brings an event leaves the response decided. */
  lemma LastCompletes(cfg: Settings, packets: seq<Packet>)
    requires packets != [] && Sniff(cfg, packets).1[|packets| - 1].event.Some?
    ensures !Consume(cfg.response, ResponseSince(cfg, packets).0, ResponseInputs(cfg, packets)).Undecided?
  {
    hide React, Received, ToldOfRequest, Settled, EventOf, Init, Sniff, Consume, IsComplete;
    EventAtLast(cfg, packets);
    var n := |packets| - 1;
    var (c, p) := (Sniff(cfg, packets[..n]).0, packets[n]);
    ResponseTakes(cfg, packets[..n]);
    ConsumeSnoc(cfg.response, ResponseSince(cfg, packets[..n]).0, ResponseInputs(cfg, packets[..n]), InputOf(p));
    CompleteIsReceived(cfg.response, c.response, p);
  }
}
