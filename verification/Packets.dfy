/** HTTPProtocol: the packets of one sniffed connection, in both directions, are turned
    into one event for each completed exchange. */
module Packets {
  import opened HttpTypes
  import opened HttpMachine
  import opened HttpRuns
  import opened HttpScans

  const RESPONSE_CODE_CONTINUE := 100

  /** A field of type uint32. */
  const FIELD_LIMIT := 0x1_0000_0000

  datatype Times = Times(start: Option<int>, end: Option<int>, ack: Option<int>)

  const NO_TIMES := Times(None, None, None)

  /** One direction: the parser with its message, the time stamps in microseconds, and
      the counters of packets with data and of lost ones. */
  datatype Side = Side(state: State, times: Times, data: nat, missing: nat)

  datatype Conn = Conn(request: Side, response: Side)

  datatype Settings = Settings(request: Config, response: Config)

  datatype Packet =
    | Data(isRequest: bool, bytes: string, time: int, ack: int)
    | Lost(isRequest: bool, len: nat)

  /** The part of an event that comes from time stamps, counters and outcomes. */
  datatype Event = Event(
    csBytes: nat, scBytes: nat, status: nat,
    requestTimes: Times, responseTimes: Times,
    csSend: nat, csAck: nat, scReply: nat, scSend: nat, dataCenter: nat, scAck: nat,
    csData: nat, scData: nat, csMissing: nat, scMissing: nat,
    requestStatus: Status, responseStatus: Status)

  /** reset(). */
  function Reset(cfg: Settings): Conn {
    var r := Init(cfg.response, "");
    Conn(Side(Init(cfg.request, ""), NO_TIMES, 0, 0),
         Side(r.(msg := r.msg.(statusCode := 0, statusMessage := "")), NO_TIMES, 0, 0))
  }

  function Stamped(t: Times, time: int, ack: int): Times {
    if t.start.None? then Times(Some(time), Some(time), Some(ack))
    else if t.end.Some? && time > t.end.value then t.(end := Some(time), ack := Some(ack))
    else t
  }

  function Outcome(v: Verdict): Tribool {
    if v.Complete? then True else if v.Failed? then False else Indeterminate
  }

  /** A packet reaches the parser of its direction. */
  function Received(cfg: Config, s: Side, p: Packet): (Side, Tribool) {
    match p
    case Data(_, bytes, time, ack) =>
      var v := Parsed(cfg, s.state, bytes);
      (s.(state := v.state, times := Stamped(s.times, time, ack), data := (s.data + 1) % FIELD_LIMIT), Outcome(v))
    case Lost(_, len) =>
      var v := MissingData(cfg, s.state, len);
      (s.(state := v.state, missing := (s.missing + 1) % FIELD_LIMIT), Outcome(v))
  }

  /** updateRequestInfo; and without a version in the request the whole response is
      content, so the parsing of its headers is skipped. */
  function ToldOfRequest(cfg: Config, r: Side, request: State): Side {
    var told := r.state.(msg := r.state.msg.(requestMethod := request.msg.verb));
    if request.head.major == 0 then
      r.(state := FinishHeaders(cfg, told.(msg := told.msg.(statusCode := 0, statusMessage := ""))).state)
    else r.(state := told)
  }

  function After(a: Option<int>, b: Option<int>): nat {
    if a.Some? && b.Some? && a.value > b.value then (a.value - b.value) % FIELD_LIMIT else 0
  }

  /** The sanity checks of generateEvent on the time stamps. */
  function Settled(c: Conn): Conn {
    var (q, r) := (c.request.times, c.response.times);
    var q1 := if q.start.None? then Times(r.start, r.start, r.start) else q;
    var r1 := if q.start.Some? && r.start.None? then Times(q.end, q.end, q.end) else r;
    var r2 := if r1.ack.Some? && r1.end.Some? && r1.ack.value < r1.end.value then r1.(ack := r1.end) else r1;
    Conn(c.request.(times := q1), c.response.(times := r2))
  }

  /** generateEvent, for settled time stamps. */
  function EventOf(c: Conn): Event {
    var (q, r) := (c.request.times, c.response.times);
    Event(c.request.state.totalRead, c.response.state.totalRead, c.response.state.msg.statusCode, q, r,
          After(q.end, q.start), After(q.ack, q.end), After(r.start, q.end), After(r.end, r.start),
          After(r.end, q.end), After(r.ack, r.end),
          c.request.data, c.response.data, c.request.missing, c.response.missing,
          c.request.state.msg.status, c.response.state.msg.status)
  }

  /** What readNext does: the connection afterwards, its result, the event it adds, and
      whether it has skipped a 100 (Continue) response. */
  datatype Reading = Reading(conn: Conn, rc: Tribool, event: Option<Event>, skipped: bool)

  function ReadNext(cfg: Settings, c: Conn, p: Packet): Reading {
    if p.isRequest then
      var (q, rc) := Received(cfg.request, c.request, p);
      if rc.True? then Reading(Conn(q, ToldOfRequest(cfg.response, c.response, q.state)), Indeterminate, None, false)
      else Reading(c.(request := q), rc, None, false)
    else
      var (r, rc) := Received(cfg.response, c.response, p);
      if !rc.True? then Reading(c.(response := r), rc, None, false)
      else if r.state.msg.statusCode == RESPONSE_CODE_CONTINUE then
        Reading(c.(response := Side(Init(cfg.response, ""), NO_TIMES, 0, 0)), Indeterminate, None, true)
      else if c.request.state.msg.isValid then
        var done := Settled(c.(response := r));
        Reading(done, True, Some(EventOf(done)), false)
      else Reading(c.(response := r), False, None, false)
  }

  // ------------------------------------------------------------------ whole runs

  datatype Call = Call(packet: Packet, event: Option<Event>, skipped: bool)

  /** The packets since a reset: where they lead, and what each call has reported. */
  function Sniff(cfg: Settings, packets: seq<Packet>): (r: (Conn, seq<Call>))
    ensures |r.1| == |packets|
  {
    if packets == [] then (Reset(cfg), [])
    else
      var n := |packets| - 1;
      var (c, trace) := Sniff(cfg, packets[..n]);
      var reading := ReadNext(cfg, c, packets[n]);
      (reading.conn, trace + [Call(packets[n], reading.event, reading.skipped)])
  }

  /** The time stamps of the packets with data in one direction, in the order of their
      arrival; a skipped response starts that direction anew. */
  function Stamps(trace: seq<Call>, isRequest: bool): seq<(int, int)> {
    if trace == [] then []
    else
      var (p, before) := (trace[|trace| - 1].packet, Stamps(trace[..|trace| - 1], isRequest));
      if trace[|trace| - 1].skipped && !isRequest then []
      else if p.Data? && p.isRequest == isRequest then before + [(p.time, p.ack)]
      else before
  }

  function Losses(trace: seq<Call>, isRequest: bool): nat {
    if trace == [] then 0
    else
      var (p, before) := (trace[|trace| - 1].packet, Losses(trace[..|trace| - 1], isRequest));
      if trace[|trace| - 1].skipped && !isRequest then 0
      else if p.Lost? && p.isRequest == isRequest then before + 1
      else before
  }

  function LatestTime(stamps: seq<(int, int)>): int
    requires stamps != []
  {
    var (before, last) := (stamps[..|stamps| - 1], stamps[|stamps| - 1].0);
    if before == [] || LatestTime(before) < last then last else LatestTime(before)
  }

  /** An event that is made before any response packet with data has been seen lends the
      response the end of the request as its time stamp. */
  function Loan(trace: seq<Call>): seq<(int, int)> {
    if trace == [] || trace[|trace| - 1].skipped then []
    else
      var before := Loan(trace[..|trace| - 1]);
      if before == [] && trace[|trace| - 1].event.Some? && Stamps(trace, false) == [] && Stamps(trace, true) != [] then
        var end := LatestTime(Stamps(trace, true));
        [(end, end)]
      else before
  }

  /** The time stamps that the response goes by. */
  function ResponseStamps(trace: seq<Call>): seq<(int, int)> { Loan(trace) + Stamps(trace, false) }

  /** k is the first of the latest time stamps. */
  predicate IsLatest(stamps: seq<(int, int)>, k: nat) {
    && k < |stamps|
    && (forall j | 0 <= j < |stamps| :: stamps[j].0 <= stamps[k].0)
    && (forall j | 0 <= j < k :: stamps[j].0 < stamps[k].0)
  }

  /** The start is the first time stamp, the end is the latest one, and the
      acknowledgement is that of the first packet with the latest time stamp. Once an
      event was made, the acknowledgement may have been moved up to the end. */
  ghost predicate Summarises(t: Times, stamps: seq<(int, int)>, settled: bool) {
    if stamps == [] then t == NO_TIMES
    else
      && t.start == Some(stamps[0].0)
      && exists k: nat :: IsLatest(stamps, k) && t.end == Some(stamps[k].0)
           && (t.ack == Some(stamps[k].1) || (settled && t.ack == t.end && stamps[k].1 < stamps[k].0))
  }

  /** A parser that has read nothing. */
  predicate Untouched(s: State) { s.phase.Start? && !s.msg.isValid && s.totalRead == 0 }

  ghost predicate RunInv(c: Conn, trace: seq<Call>) {
    && Summarises(c.request.times, Stamps(trace, true), false)
    && Summarises(c.response.times, ResponseStamps(trace), true)
    && c.request.data == |Stamps(trace, true)| % FIELD_LIMIT
    && c.response.data == |Stamps(trace, false)| % FIELD_LIMIT
    && c.request.missing == Losses(trace, true) % FIELD_LIMIT
    && c.response.missing == Losses(trace, false) % FIELD_LIMIT
    && (Stamps(trace, true) == [] ==> Untouched(c.request.state))
  }

  lemma StampKeepsSummary(t: Times, stamps: seq<(int, int)>, settled: bool, time: int, ack: int)
    requires Summarises(t, stamps, settled)
    ensures Summarises(Stamped(t, time, ack), stamps + [(time, ack)], settled)
  {
    var all := stamps + [(time, ack)];
    if stamps == [] {
      assert IsLatest(all, 0);
    } else {
      var k: nat :| IsLatest(stamps, k) && t.end == Some(stamps[k].0)
        && (t.ack == Some(stamps[k].1) || (settled && t.ack == t.end && stamps[k].1 < stamps[k].0));
      assert all[k] == stamps[k];
      if time > stamps[k].0 {
        assert IsLatest(all, |stamps|);
      } else {
        assert IsLatest(all, k);
      }
    }
  }

  lemma SettlingKeepsSummary(c: Conn, stamps: seq<(int, int)>)
    requires c.request.times.start.Some? && stamps != [] && Summarises(c.response.times, stamps, true)
    ensures Summarises(Settled(c).response.times, stamps, true) && Settled(c).request == c.request
  {
    var t := c.response.times;
    var k: nat :| IsLatest(stamps, k) && t.end == Some(stamps[k].0)
      && (t.ack == Some(stamps[k].1) || (t.ack == t.end && stamps[k].1 < stamps[k].0));
  }

  lemma LostAtStart(cfg: Config, s: State, n: nat)
    requires s.phase.Start?
    ensures var v := MissingData(cfg, s, n); v.Failed? && v.state.phase.Start? && v.state.msg.isValid == s.msg.isValid && v.state.totalRead == s.totalRead
  {
  }

  lemma LatestIsLatest(stamps: seq<(int, int)>, k: nat)
    requires IsLatest(stamps, k)
    ensures LatestTime(stamps) == stamps[k].0
  {
    var n := |stamps| - 1;
    if k < n {
      assert IsLatest(stamps[..n], k);
      LatestIsLatest(stamps[..n], k);
    } else if n > 0 {
      LatestIsReached(stamps[..n]);
    }
  }

  lemma LatestIsReached(stamps: seq<(int, int)>)
    requires stamps != []
    ensures exists k | 0 <= k < |stamps| :: stamps[k].0 == LatestTime(stamps)
  {
    var n := |stamps| - 1;
    if n > 0 {
      LatestIsReached(stamps[..n]);
      var k :| 0 <= k < n && stamps[..n][k].0 == LatestTime(stamps[..n]);
      assert stamps[k].0 == LatestTime(stamps[..n]);
    }
    assert stamps[n].0 == LatestTime(stamps) || exists k | 0 <= k < n :: stamps[k].0 == LatestTime(stamps);
  }

  lemma TraceNext(trace: seq<Call>, call: Call)
    ensures var (p, trace') := (call.packet, trace + [call]);
            && (forall isRequest :: Stamps(trace', isRequest) ==
                  if call.skipped && !isRequest then []
                  else if p.Data? && p.isRequest == isRequest then Stamps(trace, isRequest) + [(p.time, p.ack)]
                  else Stamps(trace, isRequest))
            && (forall isRequest :: Losses(trace', isRequest) ==
                  if call.skipped && !isRequest then 0
                  else if p.Lost? && p.isRequest == isRequest then Losses(trace, isRequest) + 1
                  else Losses(trace, isRequest))
            && Loan(trace') ==
                 if call.skipped then []
                 else if Loan(trace) == [] && call.event.Some? && Stamps(trace', false) == [] && Stamps(trace', true) != [] then
                   [(LatestTime(Stamps(trace', true)), LatestTime(Stamps(trace', true)))]
                 else Loan(trace)
  {
    assert (trace + [call])[..|trace|] == trace;
  }

  /** What a packet does to the counters of its own side. */
  lemma ReceivedCounts(cfg: Config, s: Side, p: Packet, stamps: seq<(int, int)>, losses: nat)
    requires s.data == |stamps| % FIELD_LIMIT && s.missing == losses % FIELD_LIMIT
    ensures var t := Received(cfg, s, p).0;
            var stamps' := if p.Data? then stamps + [(p.time, p.ack)] else stamps;
            && t.data == |stamps'| % FIELD_LIMIT
            && t.missing == (if p.Lost? then losses + 1 else losses) % FIELD_LIMIT
            && (stamps' == [] && Untouched(s.state) ==> Untouched(t.state))
  {
    hide Parsed, Stamped;
    if p.Lost? && s.state.phase.Start? {
      LostAtStart(cfg, s.state, p.len);
    }
  }

  /** What a packet does to the time stamps of its own side. */
  lemma ReceivedStamps(cfg: Config, s: Side, p: Packet, stamps: seq<(int, int)>, settled: bool)
    requires Summarises(s.times, stamps, settled)
    ensures Summarises(Received(cfg, s, p).0.times, if p.Data? then stamps + [(p.time, p.ack)] else stamps, settled)
  {
    hide Parsed, MissingData, Summarises, Stamped;
    if p.Data? {
      StampKeepsSummary(s.times, stamps, settled, p.time, p.ack);
    }
  }

  /** Settling a response without time stamps gives it those of the request's end. */
  lemma SettlingLends(c: Conn, stamps: seq<(int, int)>)
    requires stamps != [] && Summarises(c.request.times, stamps, false) && c.response.times == NO_TIMES
    ensures var end := LatestTime(stamps);
            Summarises(Settled(c).response.times, [(end, end)], true) && Settled(c).request == c.request
  {
    var k: nat :| IsLatest(stamps, k) && c.request.times.end == Some(stamps[k].0) && c.request.times.ack == Some(stamps[k].1);
    LatestIsLatest(stamps, k);
    assert IsLatest([(stamps[k].0, stamps[k].0)], 0);
  }

  lemma SettlingKeepsSides(c: Conn)
    ensures var d := Settled(c);
            d.request == c.request.(times := d.request.times) && d.response == c.response.(times := d.response.times)
  {
  }

  lemma NothingSummarised(settled: bool)
    ensures Summarises(NO_TIMES, [], settled)
  {
  }

  lemma SummaryHasStart(t: Times, stamps: seq<(int, int)>, settled: bool)
    requires Summarises(t, stamps, settled) && stamps != []
    ensures t.start.Some?
  {
  }

  lemma SummaryOfNothing(t: Times, settled: bool)
    ensures Summarises(t, [], settled) <==> t == NO_TIMES
  {
  }

  lemma RequestKeeps(cfg: Settings, c: Conn, trace: seq<Call>, p: Packet)
    requires RunInv(c, trace) && p.isRequest
    ensures var r := ReadNext(cfg, c, p); RunInv(r.conn, trace + [Call(p, r.event, r.skipped)])
  {
    hide Received, Settled, EventOf, FinishHeaders, Summarises, Stamps, Losses, Loan, LatestTime;
    var r := ReadNext(cfg, c, p);
    TraceNext(trace, Call(p, r.event, r.skipped));
    ReceivedCounts(cfg.request, c.request, p, Stamps(trace, true), Losses(trace, true));
    ReceivedStamps(cfg.request, c.request, p, Stamps(trace, true), false);
  }

  /** The stamps that the response goes by, when a packet of it has arrived and the event
      is not made yet. */
  function Arrived(trace: seq<Call>, p: Packet): seq<(int, int)> {
    if p.Data? then ResponseStamps(trace) + [(p.time, p.ack)] else ResponseStamps(trace)
  }

  lemma ArrivedParts(trace: seq<Call>, p: Packet)
    ensures Arrived(trace, p) ==
            Loan(trace) + if p.Data? then Stamps(trace, false) + [(p.time, p.ack)] else Stamps(trace, false)
  {
    hide Loan, Stamps;
  }

  /** An event leaves the summaries right, or lends the response a time stamp. */
  lemma SettlingKeeps(c: Conn, q: seq<(int, int)>, r: seq<(int, int)>)
    requires q != [] && Summarises(c.request.times, q, false) && Summarises(c.response.times, r, true)
    ensures Summarises(Settled(c).request.times, q, false)
    ensures Summarises(Settled(c).response.times, if r == [] then [(LatestTime(q), LatestTime(q))] else r, true)
  {
    hide Settled, Summarises, LatestTime;
    SummaryHasStart(c.request.times, q, false);
    SettlingKeepsRequest(c);
    if r == [] {
      SummaryOfNothing(c.response.times, true);
      SettlingLends(c, q);
    } else {
      SettlingKeepsSummary(c, r);
    }
  }

  lemma ResponseKeeps(cfg: Settings, c: Conn, trace: seq<Call>, p: Packet)
    requires RunInv(c, trace) && !p.isRequest
    ensures var r := ReadNext(cfg, c, p); RunInv(r.conn, trace + [Call(p, r.event, r.skipped)])
  {
    hide Received, Settled, EventOf, Init, Summarises, Stamps, Losses, Loan, LatestTime, Arrived;
    var r := ReadNext(cfg, c, p);
    TraceNext(trace, Call(p, r.event, r.skipped));
    ReceivedCounts(cfg.response, c.response, p, Stamps(trace, false), Losses(trace, false));
    ReceivedStamps(cfg.response, c.response, p, ResponseStamps(trace), true);
    ArrivedParts(trace, p);
    ArrivedIs(trace, p);
    var received := c.(response := Received(cfg.response, c.response, p).0);
    SettlingKeepsSides(received);
    NothingSummarised(true);
    var trace' := trace + [Call(p, r.event, r.skipped)];
    if r.event.Some? {
      SettlingKeeps(received, Stamps(trace, true), Arrived(trace, p));
      assert ResponseStamps(trace') ==
             if Arrived(trace, p) == [] then [(LatestTime(Stamps(trace, true)), LatestTime(Stamps(trace, true)))] else Arrived(trace, p);
    } else {
      assert ResponseStamps(trace') == if r.skipped then [] else Arrived(trace, p);
    }
  }

  lemma ArrivedIs(trace: seq<Call>, p: Packet)
    ensures Arrived(trace, p) == if p.Data? then ResponseStamps(trace) + [(p.time, p.ack)] else ResponseStamps(trace)
  {
  }

  lemma ReadNextKeeps(cfg: Settings, c: Conn, trace: seq<Call>, p: Packet)
    requires RunInv(c, trace)
    ensures var r := ReadNext(cfg, c, p); RunInv(r.conn, trace + [Call(p, r.event, r.skipped)])
  {
    hide RunInv, ReadNext;
    if p.isRequest {
      RequestKeeps(cfg, c, trace, p);
    } else {
      ResponseKeeps(cfg, c, trace, p);
    }
  }

  lemma SettlingKeepsRequest(c: Conn)
    requires c.request.times.start.Some?
    ensures Settled(c).request == c.request
  {
  }

  lemma {:induction false} RunKeepsSummaries(cfg: Settings, packets: seq<Packet>)
    ensures var (c, trace) := Sniff(cfg, packets); RunInv(c, trace)
  {
    hide ReadNext, RunInv;
    if packets == [] {
      EmptyRunInv(cfg);
    } else {
      var n := |packets| - 1;
      RunKeepsSummaries(cfg, packets[..n]);
      var (c, trace) := Sniff(cfg, packets[..n]);
      ReadNextKeeps(cfg, c, trace, packets[n]);
    }
  }

  /** The response's times are those of its own packets exactly, as far as no time stamp
      has been lent to it; before its first packet they are there only if one has. */
  lemma SummaryIsPlain(cfg: Settings, packets: seq<Packet>)
    ensures var (c, trace) := Sniff(cfg, packets);
            && (Loan(trace) == [] ==> Summarises(c.response.times, Stamps(trace, false), true))
            && (Stamps(trace, false) == [] ==> (Summarises(c.response.times, [], true) <==> Loan(trace) == []))
            && (Loan(trace) != [] ==> c.response.times.start == Some(Loan(trace)[0].0))
  {
    hide Sniff, IsLatest;
    var (c, trace) := Sniff(cfg, packets);
    RunKeepsSummaries(cfg, packets);
    assert [] + Stamps(trace, false) == Stamps(trace, false);
  }

  lemma EmptyRunInv(cfg: Settings)
    ensures RunInv(Reset(cfg), [])
  {
  }

  // -------------------------------------------------------------------- events

  /** A complete message, with the status that the marks of loss give it. */
  predicate IsComplete(s: State) {
    s.phase.End? && s.msg.isValid && s.msg.status == ComputeStatus(s.msg, true)
  }

  lemma CompletedIsValid(cfg: Config, s: State)
    ensures IsComplete(Completed(cfg, s))
  {
  }

  lemma DoneIsValid(cfg: Config, s: State, c: char)
    ensures var r := HttpMachine.Step(cfg, s, c); r.Done? ==> IsComplete(r.state)
  {
    hide HeadStep, FinishHeaders, ChunkStep, Completed, IsComplete;
    forall t ensures IsComplete(Completed(cfg, t)) {
      CompletedIsValid(cfg, t);
    }
  }

  lemma {:induction false} RunCompleteIsValid(cfg: Config, s: State, data: string)
    ensures var v := HttpMachine.Run(cfg, s, data); v.Complete? ==> IsComplete(v.state)
    decreases |data|
  {
    hide HttpMachine.Step, IsComplete;
    if data != "" {
      var r := HttpMachine.Step(cfg, s, data[0]);
      DoneIsValid(cfg, s, data[0]);
      if r.More? {
        RunCompleteIsValid(cfg, r.state, data[1..]);
      }
    }
  }

  lemma MissingCompleteIsValid(cfg: Config, s: State, n: nat)
    ensures var v := MissingData(cfg, s, n); v.Complete? ==> IsComplete(v.state)
  {
  }

  /** A call adds an event exactly when it returns true, and then both messages are
      complete and the response is not a 100 (Continue); such a response changes nothing
      on the side of the request. */
  lemma EventsAreComplete(cfg: Settings, c: Conn, p: Packet)
    ensures var r := ReadNext(cfg, c, p);
            && (r.event.Some? <==> r.rc.True?)
            && (r.event.Some? ==>
                  && !p.isRequest && c.request.state.msg.isValid && r.conn.request.state == c.request.state
                  && r.conn.response.state.phase.End? && r.conn.response.state.msg.isValid
                  && r.conn.response.state.msg.statusCode != RESPONSE_CODE_CONTINUE)
            && (r.skipped ==> r.conn.request == c.request && r.rc.Indeterminate?)
  {
    hide HttpMachine.Run, MissingData, FinishHeaders;
    if p.Data? {
      RunCompleteIsValid(cfg.response, c.response.state, p.bytes);
    } else {
      MissingCompleteIsValid(cfg.response, c.response.state, p.len);
    }
  }

  /** The time from a to b, if b is later. */
  function Elapsed(a: int, b: int): nat { if b > a then (b - a) % FIELD_LIMIT else 0 }

  /** What an event says of the packets it was made from: times between the first and
      the latest packet of either direction. */
  ghost predicate Describes(e: Event, q: seq<(int, int)>, r: seq<(int, int)>) {
    exists i: nat, j: nat :: IsLatest(q, i) && IsLatest(r, j) && Spans(e, q[0], q[i], r[0], r[j])
  }

  predicate Spans(e: Event, firstQ: (int, int), lastQ: (int, int), firstR: (int, int), lastR: (int, int)) {
    && e.csSend == Elapsed(firstQ.0, lastQ.0) && e.csAck == Elapsed(lastQ.0, lastQ.1)
    && e.scReply == Elapsed(lastQ.0, firstR.0) && e.scSend == Elapsed(firstR.0, lastR.0)
    && e.dataCenter == Elapsed(lastQ.0, lastR.0) && e.scAck == Elapsed(lastR.0, lastR.1)
    && e.requestTimes == Times(Some(firstQ.0), Some(lastQ.0), Some(lastQ.1))
    && e.responseTimes == Times(Some(firstR.0), Some(lastR.0), Some(if lastR.1 < lastR.0 then lastR.0 else lastR.1))
  }

  /** The response is not acknowledged before its end. */
  predicate Acknowledged(c: Conn) {
    var t := c.response.times;
    t.ack.Some? && t.end.Some? ==> t.end.value <= t.ack.value
  }

  lemma SettledIsAcknowledged(c: Conn)
    ensures Acknowledged(Settled(c))
  {
  }

  lemma TimesSpan(c: Conn, firstQ: (int, int), lastQ: (int, int), firstR: (int, int), lastR: (int, int))
    requires c.request.times == Times(Some(firstQ.0), Some(lastQ.0), Some(lastQ.1))
    requires var t := c.response.times;
             && t.start == Some(firstR.0) && t.end == Some(lastR.0)
             && (t.ack == Some(lastR.1) || (t.ack == t.end && lastR.1 < lastR.0))
    requires Acknowledged(c)
    ensures Spans(EventOf(c), firstQ, lastQ, firstR, lastR)
  {
  }

  lemma SummariesDescribe(c: Conn, q: seq<(int, int)>, r: seq<(int, int)>)
    requires q != [] && r != [] && Summarises(c.request.times, q, false) && Summarises(c.response.times, r, true)
    requires Acknowledged(c)
    ensures Describes(EventOf(c), q, r)
  {
    hide EventOf, Spans;
    var (t, u) := (c.request.times, c.response.times);
    var i: nat :| IsLatest(q, i) && t.end == Some(q[i].0) && t.ack == Some(q[i].1);
    var j: nat :| IsLatest(r, j) && u.end == Some(r[j].0)
      && (u.ack == Some(r[j].1) || (u.ack == u.end && r[j].1 < r[j].0));
    TimesSpan(c, q[0], q[i], r[0], r[j]);
  }

  /** The event that the last call of a run adds: its counters are those of the packets
      seen, and its times are those of their time stamps, or of the one that is lent. */
  lemma EventDescribesRun(cfg: Settings, packets: seq<Packet>)
    requires packets != []
    ensures var (_, trace) := Sniff(cfg, packets);
            var (event, q, r) := (trace[|packets| - 1].event, Stamps(trace, true), ResponseStamps(trace));
            event.Some? ==>
              && q != [] && r != [] && Describes(event.value, q, r)
              && event.value.csData == |q| % FIELD_LIMIT && event.value.scData == |Stamps(trace, false)| % FIELD_LIMIT
              && event.value.csMissing == Losses(trace, true) % FIELD_LIMIT
              && event.value.scMissing == Losses(trace, false) % FIELD_LIMIT
  {
    hide Received, Settled, EventOf, FinishHeaders, Summarises, Stamps, Losses, Loan, Describes, LatestTime;
    var n := |packets| - 1;
    var (before, trace) := Sniff(cfg, packets[..n]);
    var reading := ReadNext(cfg, before, packets[n]);
    var whole := Sniff(cfg, packets).1;
    RunKeepsSummaries(cfg, packets[..n]);
    RunKeepsSummaries(cfg, packets);
    if reading.event.Some? {
      TraceNext(trace, Call(packets[n], reading.event, reading.skipped));
      assert Stamps(whole, true) == Stamps(trace, true);
      EventCounts(reading.conn);
      SettledIsAcknowledged(before.(response := Received(cfg.response, before.response, packets[n]).0));
      SummariesDescribe(reading.conn, Stamps(whole, true), ResponseStamps(whole));
    }
  }

  lemma EventCounts(c: Conn)
    ensures var e := EventOf(c);
            && e.csData == c.request.data && e.scData == c.response.data
            && e.csMissing == c.request.missing && e.scMissing == c.response.missing
            && e.csBytes == c.request.state.totalRead && e.scBytes == c.response.state.totalRead
  {
  }

  /** Data-center time is reply time plus send time. */
  predicate AddsUp(e: Event, end: int, first: int, last: int) {
    && (first >= end ==> e.dataCenter == (e.scReply + e.scSend) % FIELD_LIMIT)
    && (last - first < FIELD_LIMIT && last - end < FIELD_LIMIT ==>
          (e.dataCenter == e.scReply + e.scSend <==> first >= end || first == last))
  }

  lemma SpanAddsUp(e: Event, firstQ: (int, int), lastQ: (int, int), firstR: (int, int), lastR: (int, int))
    requires Spans(e, firstQ, lastQ, firstR, lastR) && firstR.0 <= lastR.0
    ensures AddsUp(e, lastQ.0, firstR.0, lastR.0)
  {
    if firstR.0 >= lastQ.0 {
      SumWraps(firstR.0 - lastQ.0, lastR.0 - firstR.0);
    }
  }

  lemma DescribedAddsUp(e: Event, q: seq<(int, int)>, r: seq<(int, int)>)
    requires q != [] && r != [] && Describes(e, q, r)
    ensures AddsUp(e, LatestTime(q), r[0].0, LatestTime(r))
  {
    hide Spans, LatestTime, AddsUp;
    var i: nat, j: nat :| IsLatest(q, i) && IsLatest(r, j) && Spans(e, q[0], q[i], r[0], r[j]);
    LatestIsLatest(q, i);
    LatestIsLatest(r, j);
    SpanAddsUp(e, q[0], q[i], r[0], r[j]);
  }

  /** In the event that the last call of a run adds, data-center time is reply time plus
      send time when the response starts no earlier than the request ends, as a sum of
      32-bit numbers. Without overflow, that is the case only then, or when the response
      takes no time. */
  lemma DataCenterTime(cfg: Settings, packets: seq<Packet>)
    requires packets != [] && Sniff(cfg, packets).1[|packets| - 1].event.Some?
    ensures var (_, trace) := Sniff(cfg, packets);
            var (e, q, r) := (trace[|packets| - 1].event.value, Stamps(trace, true), ResponseStamps(trace));
            q != [] && r != [] && AddsUp(e, LatestTime(q), r[0].0, LatestTime(r))
  {
    hide Sniff, Stamps, Loan, LatestTime, Describes, AddsUp, ResponseStamps;
    var (_, trace) := Sniff(cfg, packets);
    EventDescribesRun(cfg, packets);
    DescribedAddsUp(trace[|packets| - 1].event.value, Stamps(trace, true), ResponseStamps(trace));
  }

  lemma SumWraps(a: nat, b: nat)
    ensures (a + b) % FIELD_LIMIT == (a % FIELD_LIMIT + b % FIELD_LIMIT) % FIELD_LIMIT
  {
  }

  // --------------------------------------------------------------------- closing

  /** What close() does. */
  datatype Closing = Closing(conn: Conn, result: bool, event: Option<Event>, canceled: bool, refused: bool)

  function Finished(cfg: Config, s: Side): Side {
    if s.state.msg.isValid then s else s.(state := s.state.(msg := Finish(cfg, s.state)))
  }

  function Close(cfg: Settings, c: Conn, clientReset: bool, serverReset: bool): Closing {
    var d := Conn(Finished(cfg.request, c.request), Finished(cfg.response, c.response));
    var complete := d.request.state.msg.isValid && d.response.state.msg.isValid;
    if d.request.state.totalRead > 0 then
      var settled := Settled(d);
      var (canceled, refused) := (!complete && clientReset, !complete && !clientReset && serverReset);
      Closing(settled, complete || canceled || refused, Some(EventOf(settled)), canceled, refused)
    else Closing(d, complete, None, false, false)
  }

  /** An event is made on closing exactly if the request has read anything, and it describes
      the packets seen, as one that readNext makes would. */
  lemma CloseDescribesRun(cfg: Settings, packets: seq<Packet>, clientReset: bool, serverReset: bool)
    ensures var (c, trace) := Sniff(cfg, packets);
            var (closing, q, r) := (Close(cfg, c, clientReset, serverReset), Stamps(trace, true), ResponseStamps(trace));
            && (closing.event.Some? <==> c.request.state.totalRead > 0)
            && (closing.event.Some? ==>
                  var e := closing.event.value;
                  && q != [] && Describes(e, q, if r == [] then [(LatestTime(q), LatestTime(q))] else r)
                  && e.csBytes == c.request.state.totalRead && e.scBytes == c.response.state.totalRead
                  && e.csData == |q| % FIELD_LIMIT && e.scData == |Stamps(trace, false)| % FIELD_LIMIT
                  && e.csMissing == Losses(trace, true) % FIELD_LIMIT && e.scMissing == Losses(trace, false) % FIELD_LIMIT)
  {
    hide Sniff, Settled, EventOf, Finish, Summarises, Stamps, Losses, Loan, Describes, LatestTime, ResponseStamps;
    var (c, trace) := Sniff(cfg, packets);
    var (q, r) := (Stamps(trace, true), ResponseStamps(trace));
    RunKeepsSummaries(cfg, packets);
    if c.request.state.totalRead > 0 {
      var d := Conn(Finished(cfg.request, c.request), Finished(cfg.response, c.response));
      SettlingKeeps(d, q, r);
      SettlingKeepsSides(d);
      SettledIsAcknowledged(d);
      SummariesDescribe(Settled(d), q, if r == [] then [(LatestTime(q), LatestTime(q))] else r);
      EventCounts(Settled(d));
    }
  }

  /** A response that lasts until the connection closes ends in a complete exchange, with
      all its bytes up to the cap. */
  lemma CloseEndsResponse(cfg: Settings, c: Conn, clientReset: bool, serverReset: bool)
    requires c.request.state.msg.isValid && c.request.state.totalRead > 0
    requires c.response.state.phase.ContentNoLength? && !c.response.state.msg.isValid
    ensures var r := Close(cfg, c, clientReset, serverReset);
            && r.result && r.event.Some? && !r.canceled && !r.refused
            && r.conn.response.state.msg.isValid
            && r.conn.response.state.msg.content == c.response.state.chunk.cache
            && (!c.response.state.msg.missing ==> r.event.value.responseStatus == Ok)
  {
  }

  /** A response that is cut short in a body of known length counts as complete only if
      one side has reset the connection. */
  lemma CloseCutsResponse(cfg: Settings, c: Conn, clientReset: bool, serverReset: bool)
    requires c.request.state.msg.isValid && c.request.state.totalRead > 0
    requires c.response.state.phase.Content? && !c.response.state.msg.isValid
    ensures var r := Close(cfg, c, clientReset, serverReset);
            && r.event.Some? && (r.result <==> clientReset || serverReset)
            && (r.canceled <==> clientReset) && (r.refused <==> serverReset && !clientReset)
            && (!c.response.state.msg.missing ==> r.event.value.responseStatus == Truncated)
  {
  }
}
