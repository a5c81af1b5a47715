/** Streams as calls of parse see them: the pieces of a stream are parsed one call at a
    time, and a call that fails does not count its own bytes. */
module HttpCalls {
  import opened HttpTypes
  import opened HttpMachine
  import opened HttpRuns
  import opened HttpScans

  /** Calls parse on one piece after another until it decides. */
  function FeedCalls(cfg: Config, s: State, pieces: seq<string>): Verdict
    decreases |pieces|
  {
    if pieces == [] then Undecided(s)
    else
      match Parsed(cfg, s, pieces[0])
      case Undecided(s1) => FeedCalls(cfg, s1, pieces[1..])
      case Complete(s1, rest) => Complete(s1, rest + Flatten(pieces[1..]))
      case Failed(s1, e) => Failed(s1, e)
  }

  /** The number of bytes in the calls before the one that decides. */
  function Before(cfg: Config, s: State, pieces: seq<string>): nat
    decreases |pieces|
  {
    if pieces == [] then 0
    else
      var v := Run(cfg, s, pieces[0]);
      if v.Undecided? then |pieces[0]| + Before(cfg, v.state, pieces[1..]) else 0
  }

  /** Where the stream completes the header block, if it does and that is still to come. */
  function HeadEnd(cfg: Config, s: State, stream: string): Option<nat> {
    HeadRestIsSuffix(cfg, s.head, stream);
    if !s.phase.Start? && !s.phase.Headers? then None
    else
      match HeadRun(cfg, s.head, stream)
      case HeadComplete(_, rest) => Some(|stream| - |rest|)
      case _ => None
  }

  /** The counters that a failing stream leaves, when so many of its bytes came in calls
      before the failing one. */
  function CountersLeft(cfg: Config, s: State, stream: string, before: nat): (nat, nat) {
    if !s.phase.Start? && !s.phase.Headers? then (s.totalRead + before, s.contentRead + before)
    else
      match HeadEnd(cfg, s, stream)
      case None => (s.totalRead + before, s.contentRead)
      case Some(end) => if before <= end then (s.totalRead + end, 0) else (s.totalRead + before, before - end)
  }

  /** The calls come to the verdict on the whole stream, but for the counters of a failure. */
  lemma {:induction false} FeedCallsIsRun(cfg: Config, s: State, pieces: seq<string>)
    ensures Agrees(FeedCalls(cfg, s, pieces), Run(cfg, s, Flatten(pieces)))
    ensures !Run(cfg, s, Flatten(pieces)).Failed? ==> FeedCalls(cfg, s, pieces) == Run(cfg, s, Flatten(pieces))
    decreases |pieces|
  {
    hide Run, Parsed;
    if pieces == [] {
      RunNothing(cfg, s);
    } else {
      RunConcat(cfg, s, pieces[0], Flatten(pieces[1..]));
      ParsedIsRun(cfg, s, pieces[0]);
      var v := Run(cfg, s, pieces[0]);
      if v.Undecided? {
        FeedCallsIsRun(cfg, v.state, pieces[1..]);
      }
    }
  }

  // ---------------------------------------------------- counters of a failure

  lemma {:induction false} HeadRunConcat(cfg: Config, h: Head, a: string, b: string)
    ensures HeadRun(cfg, h, a + b) ==
            match HeadRun(cfg, h, a)
            case HeadUndecided(h1) => HeadRun(cfg, h1, b)
            case HeadComplete(h1, rest) => HeadComplete(h1, rest + b)
            case HeadBad(h1, e) => HeadBad(h1, e)
    decreases |a|
  {
    hide HeadStep;
    if a == "" {
      assert a + b == b;
    } else {
      assert (a + b)[0] == a[0] && (a + b)[1..] == a[1..] + b;
      var r := HeadStep(cfg, h, a[0]);
      if r.HeadMore? {
        HeadRunConcat(cfg, r.head, a[1..], b);
      }
    }
  }

  /** In a body every byte counts as content. */
  lemma BodyStepCountsContent(cfg: Config, s: State, c: char)
    requires !s.phase.Start? && !s.phase.Headers?
    ensures var r := Step(cfg, s, c);
            r.More? ==> && !r.state.phase.Start? && !r.state.phase.Headers?
                        && r.state.totalRead == s.totalRead + 1 && r.state.contentRead == s.contentRead + 1
  {
    hide ChunkStep, Completed;
  }

  lemma {:induction false} BodyRunCountsContent(cfg: Config, s: State, data: string)
    requires !s.phase.Start? && !s.phase.Headers?
    ensures var v := Run(cfg, s, data);
            v.Undecided? ==> && !v.state.phase.Start? && !v.state.phase.Headers?
                             && v.state.totalRead == s.totalRead + |data| && v.state.contentRead == s.contentRead + |data|
    decreases |data|
  {
    hide Step;
    if data != "" {
      BodyStepCountsContent(cfg, s, data[0]);
      if Step(cfg, s, data[0]).More? {
        BodyRunCountsContent(cfg, Step(cfg, s, data[0]).state, data[1..]);
      }
    }
  }

  /** Where an undecided call leaves a parser that was still in the headers. */
  lemma HeadCallCounts(cfg: Config, s: State, data: string)
    requires s.phase.Start? || s.phase.Headers?
    ensures var (v, w) := (Run(cfg, s, data), HeadRun(cfg, s.head, data));
            v.Undecided? ==>
              match w
              case HeadUndecided(h) =>
                && (v.state.phase.Start? || v.state.phase.Headers?) && v.state.head == h
                && v.state.totalRead == s.totalRead + |data| && v.state.contentRead == s.contentRead
              case HeadComplete(_, rest) =>
                && |rest| <= |data| && !v.state.phase.Start? && !v.state.phase.Headers?
                && v.state.totalRead == s.totalRead + |data| && v.state.contentRead == |rest|
              case HeadBad(_, _) => false
    ensures Run(cfg, s, data).Failed? ==> !HeadRun(cfg, s.head, data).HeadUndecided?
  {
    hide Run, HeadRun, FinishHeaders;
    if data == "" {
      RunNothing(cfg, s);
      HeadRunNothing(cfg, s.head);
    } else {
      var t := Touch(s);
      TouchIsHarmless(cfg, s, data);
      HeadRestIsSuffix(cfg, t.head, data);
      RunHead(cfg, t, data);
      var w := HeadRun(cfg, t.head, data);
      if w.HeadComplete? {
        var u := Count(t.(phase := Headers, head := w.head), |data| - |w.rest|);
        InvHeadersPhase(cfg, u);
        HeadersCountNoContent(cfg, u);
        if FinishHeaders(cfg, u).BodyFollows? {
          BodyRunCountsContent(cfg, FinishHeaders(cfg, u).state, w.rest);
        }
      }
    }
  }

  lemma HeadRunNothing(cfg: Config, h: Head)
    ensures HeadRun(cfg, h, "") == HeadUndecided(h)
  {
  }

  lemma HeadersCountNoContent(cfg: Config, s: State)
    ensures var t := FinishHeaders(cfg, s).state; t.totalRead == s.totalRead && t.contentRead == 0
  {
    hide FindHeader, ContentLengthOf, ChunkedCoding, LengthImplied;
  }

  lemma FailingCallCounts(cfg: Config, s: State, piece: string, more: string)
    requires Run(cfg, s, piece).Failed?
    ensures Kept(cfg, s, piece) == CountersLeft(cfg, s, piece + more, 0)
  {
    hide Run, HeadRun;
    HeadRestIsSuffix(cfg, s.head, piece);
    HeadRunConcat(cfg, s.head, piece, more);
    if s.phase.Start? || s.phase.Headers? {
      HeadCallCounts(cfg, s, piece);
    }
  }

  lemma EarlierCallCounts(cfg: Config, s: State, piece: string, more: string, n: nat)
    requires Run(cfg, s, piece).Undecided?
    ensures CountersLeft(cfg, Run(cfg, s, piece).state, more, n) == CountersLeft(cfg, s, piece + more, |piece| + n)
  {
    hide Run, HeadRun;
    HeadRestIsSuffix(cfg, s.head, piece);
    HeadRunConcat(cfg, s.head, piece, more);
    if s.phase.Start? || s.phase.Headers? {
      HeadCallCounts(cfg, s, piece);
      HeadRestIsSuffix(cfg, Run(cfg, s, piece).state.head, more);
    } else {
      BodyRunCountsContent(cfg, s, piece);
    }
  }

  /** What a failing stream leaves in the counters: the bytes of the calls before the
      failing one, or of the header block if that one completed it. */
  lemma {:induction false} FailureCounts(cfg: Config, s: State, pieces: seq<string>)
    requires FeedCalls(cfg, s, pieces).Failed?
    ensures var t := FeedCalls(cfg, s, pieces).state;
            (t.totalRead, t.contentRead) == CountersLeft(cfg, s, Flatten(pieces), Before(cfg, s, pieces))
    decreases |pieces|
  {
    hide Run, Kept, CountersLeft;
    var (piece, more) := (pieces[0], Flatten(pieces[1..]));
    if Run(cfg, s, piece).Undecided? {
      var s1 := Run(cfg, s, piece).state;
      FailureCounts(cfg, s1, pieces[1..]);
      EarlierCallCounts(cfg, s, piece, more, Before(cfg, s1, pieces[1..]));
    } else {
      FailingCallCounts(cfg, s, piece, more);
    }
  }

  lemma CountersTell(cfg: Config, s: State, stream: string, m: nat, n: nat)
    ensures CountersLeft(cfg, s, stream, m) == CountersLeft(cfg, s, stream, n) <==>
            m == n || (HeadEnd(cfg, s, stream).Some? && m <= HeadEnd(cfg, s, stream).value && n <= HeadEnd(cfg, s, stream).value)
  {
    hide HeadRun;
  }

  /** Two cuts of one stream: the verdicts are equal, counters included, unless the stream
      fails; then they are equal exactly if as many bytes came before the failing call, or
      that call began within the header block both times. */
  lemma CutsShowExactlyWhen(cfg: Config, s: State, pieces: seq<string>, pieces': seq<string>)
    requires Flatten(pieces) == Flatten(pieces')
    ensures Agrees(FeedCalls(cfg, s, pieces), FeedCalls(cfg, s, pieces'))
    ensures var (m, n, end) := (Before(cfg, s, pieces), Before(cfg, s, pieces'), HeadEnd(cfg, s, Flatten(pieces)));
            FeedCalls(cfg, s, pieces) == FeedCalls(cfg, s, pieces') <==>
            (FeedCalls(cfg, s, pieces).Failed? ==> m == n || (end.Some? && m <= end.value && n <= end.value))
  {
    hide Run, FeedCalls, Before, CountersLeft, HeadEnd;
    var (v, w) := (FeedCalls(cfg, s, pieces), FeedCalls(cfg, s, pieces'));
    FeedCallsIsRun(cfg, s, pieces);
    FeedCallsIsRun(cfg, s, pieces');
    if v.Failed? {
      FailureCounts(cfg, s, pieces);
      FailureCounts(cfg, s, pieces');
      CountersTell(cfg, s, Flatten(pieces), Before(cfg, s, pieces), Before(cfg, s, pieces'));
      SameFailure(v, w);
    }
  }

  lemma SameFailure(v: Verdict, w: Verdict)
    requires v.Failed? && w.Failed? && Agrees(v, w)
    ensures v == w <==> (v.state.totalRead, v.state.contentRead) == (w.state.totalRead, w.state.contentRead)
  {
  }

  const REFUSED := "G\U{1}"

  lemma SecondByteIsRefused(cfg: Config)
    requires cfg.isRequest
    ensures HeadRun(cfg, InitHead(true), REFUSED).HeadBad? && HeadRun(cfg, InitHead(true), REFUSED[..1]).HeadUndecided?
  {
    assert REFUSED[1..][1..] == "" && REFUSED[..1][1..] == "";
    var r := HeadStep(cfg, InitHead(true), 'G');
    assert r.HeadMore? && HeadStep(cfg, r.head, '\U{1}').HeadFailed?;
    assert HeadRun(cfg, InitHead(true), REFUSED) == HeadRun(cfg, r.head, REFUSED[1..]);
  }

  /** A request whose second byte is refused: in one piece nothing is counted, in two the
      first byte is. */
  lemma CutShowsInCounters(cfg: Config)
    requires cfg.isRequest
    ensures var (one, two) := (FeedCalls(cfg, Init(cfg, ""), [REFUSED]),
                               FeedCalls(cfg, Init(cfg, ""), [REFUSED[..1], REFUSED[1..]]));
            && one.Failed? && two.Failed? && one.error == two.error
            && one.state.totalRead == 0 && two.state.totalRead == 1
  {
    hide Run, HeadRun, FeedCalls, Parsed;
    var (s, a, b) := (Init(cfg, ""), REFUSED[..1], REFUSED[1..]);
    assert a + b == REFUSED && b + "" == b && [a, b][1..] == [b] && [b][1..] == [] && [REFUSED][1..] == [] && REFUSED + "" == REFUSED;
    assert Flatten([]) == "" && Flatten([b]) == b && Flatten([a, b]) == REFUSED && Flatten([REFUSED]) == REFUSED;
    SecondByteIsRefused(cfg);
    RunHead(cfg, s, REFUSED);
    RunHead(cfg, s, a);
    FeedCallsIsRun(cfg, s, [REFUSED]);
    FeedCallsIsRun(cfg, s, [a, b]);
    FailureCounts(cfg, s, [REFUSED]);
    FailureCounts(cfg, s, [a, b]);
    assert Before(cfg, s, [REFUSED]) == 0;
    RunConcat(cfg, s, a, b);
    var v := Run(cfg, s, a);
    assert v.Undecided? && Run(cfg, v.state, b).Failed?;
    assert Before(cfg, v.state, [b]) == 0;
    assert Before(cfg, s, [a, b]) == 1;
  }
}
