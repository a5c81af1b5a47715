/** HTTPProtocol as an object: two parsers, the time stamps and the packet counters of one
    connection. A parser is held as the state that HttpParser.Parse and ParseMissingData
    are proved to compute, together with its message; PacketRuns.ParsersStaySound shows
    that these states always meet what those methods require. */
module HttpProtocol {
  import opened HttpTypes
  import opened HttpMachine
  import opened HttpRuns
  import opened HttpScans
  import opened Packets

  class HttpProtocol {
    const cfg: Settings
    var request: State
    var response: State
    var requestStart: Option<int>
    var requestEnd: Option<int>
    var requestAck: Option<int>
    var responseStart: Option<int>
    var responseEnd: Option<int>
    var responseAck: Option<int>
    var csDataPackets: nat
    var scDataPackets: nat
    var csMissingPackets: nat
    var scMissingPackets: nat

    ghost function View(): Conn
      reads this
    {
      Conn(Side(request, Times(requestStart, requestEnd, requestAck), csDataPackets, csMissingPackets),
           Side(response, Times(responseStart, responseEnd, responseAck), scDataPackets, scMissingPackets))
    }

    constructor (cfg: Settings)
      ensures this.cfg == cfg && View() == Packets.Reset(cfg)
    {
      this.cfg := cfg;
      request, response := Init(cfg.request, ""), Init(cfg.response, "");
      new;
      Reset();
    }

    method Reset()
      modifies this
      ensures View() == Packets.Reset(cfg)
    {
      request, response := Init(cfg.request, ""), Init(cfg.response, "");
      response := response.(msg := response.msg.(statusCode := 0, statusMessage := ""));
      requestStart, requestEnd, requestAck := None, None, None;
      responseStart, responseEnd, responseAck := None, None, None;
      csDataPackets, scDataPackets, csMissingPackets, scMissingPackets := 0, 0, 0, 0;
    }

    /** The packet reaches the parser of its direction. */
    method Receive(p: Packet) returns (rc: Tribool)
      modifies this
      ensures var (before, s) := (old(View()), Received(if p.isRequest then cfg.request else cfg.response,
                                                        if p.isRequest then old(View()).request else old(View()).response, p));
              rc == s.1 && View() == if p.isRequest then before.(request := s.0) else before.(response := s.0)
    {
      hide Parsed, MissingData;
      match p {
        case Lost(isRequest, len) =>
          if isRequest {
            csMissingPackets := (csMissingPackets + 1) % FIELD_LIMIT;
            var v := MissingData(cfg.request, request, len);
            request, rc := v.state, Outcome(v);
          } else {
            scMissingPackets := (scMissingPackets + 1) % FIELD_LIMIT;
            var v := MissingData(cfg.response, response, len);
            response, rc := v.state, Outcome(v);
          }
        case Data(isRequest, bytes, time, ack) =>
          if isRequest {
            csDataPackets := (csDataPackets + 1) % FIELD_LIMIT;
            if requestStart == None {
              requestStart, requestEnd := Some(time), Some(time);
              requestAck := Some(ack);
            } else if requestEnd.Some? && time > requestEnd.value {
              requestEnd := Some(time);
              requestAck := Some(ack);
            }
            var v := Parsed(cfg.request, request, bytes);
            request, rc := v.state, Outcome(v);
          } else {
            scDataPackets := (scDataPackets + 1) % FIELD_LIMIT;
            if responseStart == None {
              responseStart, responseEnd := Some(time), Some(time);
              responseAck := Some(ack);
            } else if responseEnd.Some? && time > responseEnd.value {
              responseEnd := Some(time);
              responseAck := Some(ack);
            }
            var v := Parsed(cfg.response, response, bytes);
            response, rc := v.state, Outcome(v);
          }
      }
    }

    /** generateEvent, as far as time stamps, counters and outcomes go. */
    method GenerateEvent() returns (event: Event)
      modifies this
      ensures View() == Settled(old(View())) && event == EventOf(View())
    {
      if requestStart == None {
        requestStart, requestEnd, requestAck := responseStart, responseStart, responseStart;
      } else if responseStart == None {
        responseStart, responseEnd, responseAck := requestEnd, requestEnd, requestEnd;
      }
      if responseAck.Some? && responseEnd.Some? && responseAck.value < responseEnd.value {
        responseAck := responseEnd;
      }
      event := Event(request.totalRead, response.totalRead, response.msg.statusCode,
                     Times(requestStart, requestEnd, requestAck), Times(responseStart, responseEnd, responseAck),
                     After(requestEnd, requestStart), After(requestAck, requestEnd), After(responseStart, requestEnd),
                     After(responseEnd, responseStart), After(responseEnd, requestEnd), After(responseAck, responseEnd),
                     csDataPackets, scDataPackets, csMissingPackets, scMissingPackets,
                     request.msg.status, response.msg.status);
    }

    /** readNext; added holds the event that is appended to the caller's, if any. */
    method ReadNext(p: Packet) returns (rc: Tribool, added: seq<Event>)
      requires p.Data? ==> p.bytes != ""
      modifies this
      ensures var r := Packets.ReadNext(cfg, old(View()), p);
              rc == r.rc && View() == r.conn && added == if r.event.Some? then [r.event.value] else []
    {
      hide Received, Settled, EventOf, FinishHeaders, Init;
      added := [];
      rc := Receive(p);
      if rc == True {
        if p.isRequest {
          response := response.(msg := response.msg.(requestMethod := request.msg.verb));
          if request.head.major == 0 {
            response := response.(msg := response.msg.(statusCode := 0, statusMessage := ""));
            response := FinishHeaders(cfg.response, response).state;
          }
          rc := Indeterminate;
        } else {
          if response.msg.statusCode == RESPONSE_CODE_CONTINUE {
            response := Init(cfg.response, "");
            responseStart, responseEnd, responseAck := None, None, None;
            scDataPackets, scMissingPackets := 0, 0;
            rc := Indeterminate;
          } else if request.msg.isValid {
            var event := GenerateEvent();
            added := [event];
          } else {
            rc := False;
          }
        }
      }
    }

    method Close(clientReset: bool, serverReset: bool)
      returns (result: bool, event: Option<Event>, canceled: bool, refused: bool)
      modifies this
      ensures Closing(View(), result, event, canceled, refused) == Packets.Close(cfg, old(View()), clientReset, serverReset)
    {
      hide Settled, EventOf, Finish;
      canceled, refused, event := false, false, None;
      if !request.msg.isValid {
        request := request.(msg := Finish(cfg.request, request));
      }
      if !response.msg.isValid {
        response := response.(msg := Finish(cfg.response, response));
      }
      result := request.msg.isValid && response.msg.isValid;
      if request.totalRead > 0 {
        var e := GenerateEvent();
        event := Some(e);
        if !result {
          if clientReset {
            canceled, result := true, true;
          } else if serverReset {
            refused, result := true, true;
          }
        }
      }
    }
  }
}
