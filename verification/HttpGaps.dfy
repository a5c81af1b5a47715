/** Whole messages with lost packets: a stream with gaps is parsed as the stream in which
    every gap is filled with dummy bytes. */
module HttpGaps {
  import opened HttpTypes
  import opened HttpMachine
  import opened HttpRuns
  import opened HttpScans

  /** A gap in a body is accepted exactly if reading dummy bytes in its place would take all
      of them; before the body, none is. */
  lemma GapAcceptedExactlyWhen(cfg: Config, s: State, n: nat)
    requires Inv(cfg, s) && n > 0 && !s.phase.End?
    ensures !MissingData(cfg, s, n).Failed? <==>
            !s.phase.Start? && !s.phase.Headers? && var v := Run(cfg, s, Dummy(n)); v.Undecided? || (v.Complete? && v.rest == "")
  {
    hide Run, Completed, Unmarked;
    if !MissingData(cfg, s, n).Failed? {
      LostDataIsDummyData(cfg, s, n);
      AcceptedTakesAll(cfg, s, n);
    } else if s.phase.Content? {
      TooMuchIsLeft(cfg, s, n);
    } else if s.phase.Chunks? {
      DummyBreaksChunk(cfg, s, n);
    }
  }

  lemma AcceptedTakesAll(cfg: Config, s: State, n: nat)
    ensures MissingData(cfg, s, n).Complete? ==> MissingData(cfg, s, n).rest == ""
  {
  }

  lemma TooMuchIsLeft(cfg: Config, s: State, n: nat)
    requires s.phase.Content? && 0 < s.remaining < n
    ensures var v := Run(cfg, s, Dummy(n)); v.Complete? && v.rest != ""
  {
    hide Run, Completed, Step;
    var (m, t) := (s.remaining, Touch(s));
    assert Dummy(n) == Dummy(m) + Dummy(n - m);
    TouchIsHarmless(cfg, s, Dummy(n));
    RunContent(cfg, t, Dummy(m));
    RunConcat(cfg, t, Dummy(m), Dummy(n - m));
  }

  lemma DummyBreaksChunk(cfg: Config, s: State, n: nat)
    requires Inv(cfg, s) && s.phase.Chunks? && n > 0
    requires s.chunk.phase.InChunk? ==> n > s.chunk.size - s.chunk.read
    ensures Run(cfg, s, Dummy(n)).Failed?
  {
    hide Run, Completed, Step, Inv;
    var (k, t) := (s.chunk, Touch(s));
    InsideChunk(cfg, s);
    TouchIsHarmless(cfg, s, Dummy(n));
    var m := if k.phase.InChunk? then k.size - k.read else 0;
    assert Dummy(n) == Dummy(m) + Dummy(n - m) && Dummy(0) == "";
    var t1 := if m > 0 then CountContent(t.(chunk := ChunkAfter(cfg.cap, k, Dummy(m))), m) else t;
    if m > 0 {
      RunInChunk(cfg, t, Dummy(m));
      RunConcat(cfg, t, Dummy(m), Dummy(n - m));
    }
    DummyIsNoFraming(cfg, t1, n - m);
  }

  lemma InsideChunk(cfg: Config, s: State)
    requires Inv(cfg, s)
    ensures s.chunk.phase.InChunk? ==> s.chunk.read < s.chunk.size
  {
  }

  lemma DummyIsNoFraming(cfg: Config, s: State, n: nat)
    requires s.phase.Chunks? && !s.chunk.phase.InChunk? && n > 0
    ensures Run(cfg, s, Dummy(n)).Failed?
  {
    assert Dummy(n)[0] == 'X';
  }

  /** An input with its gap written out as dummy bytes. */
  function SpelledOut(i: Input): string {
    match i
    case Bytes(d) => d
    case Gap(n) => Dummy(n)
  }

  function Spelled(inputs: seq<Input>): string {
    if inputs == [] then "" else SpelledOut(inputs[0]) + Spelled(inputs[1..])
  }

  /** The inputs behind the one that decides. */
  function Left(cfg: Config, s: State, inputs: seq<Input>): seq<Input>
    decreases |inputs|
  {
    if inputs == [] then []
    else
      var v := React(cfg, s, inputs[0]);
      if v.Undecided? then Left(cfg, v.state, inputs[1..]) else inputs[1..]
  }

  /** The verdict on the inputs, with everything that is not read. */
  function Consumed(cfg: Config, s: State, inputs: seq<Input>): Verdict {
    match Consume(cfg, s, inputs)
    case Complete(t, rest) => Complete(t, rest + Spelled(Left(cfg, s, inputs)))
    case v => v
  }

  /** No gap that is reached is refused. */
  predicate GapsAccepted(cfg: Config, s: State, inputs: seq<Input>)
    decreases |inputs|
  {
    inputs == [] ||
    var v := React(cfg, s, inputs[0]);
    !(inputs[0].Gap? && v.Failed?) && (v.Undecided? ==> GapsAccepted(cfg, v.state, inputs[1..]))
  }

  predicate CrossesNow(cfg: Config, s: State, i: Input) {
    i.Gap? && s.phase.Content? && !Within(cfg.cap, s.contentRead, i.len)
  }

  /** Some gap in a body of known length begins below the content cap and ends above it. */
  predicate Crosses(cfg: Config, s: State, inputs: seq<Input>)
    decreases |inputs|
  {
    inputs != [] &&
    (CrossesNow(cfg, s, inputs[0]) ||
     var v := React(cfg, s, inputs[0]); v.Undecided? && Crosses(cfg, v.state, inputs[1..]))
  }

  // ------------------------------------------------------ marks change nothing

  ghost predicate SameOutcomes(f: HeaderOutcome, g: HeaderOutcome, keep: bool) {
    && (f.BodyFollows? <==> g.BodyFollows?) && (f.NoMoreBody? <==> g.NoMoreBody?)
    && Unmarked(f.state, keep) == Unmarked(g.state, keep)
  }

  lemma PublishedUnmarked(cfg: Config, s: State, t: State, keep: bool)
    requires Unmarked(s, keep) == Unmarked(t, keep)
    ensures Unmarked(Published(cfg, s), keep) == Unmarked(Published(cfg, t), keep)
  {
    hide ChunkedCoding;
  }

  lemma ChooseBodyUnmarked(cfg: Config, s: State, t: State, keep: bool)
    requires Unmarked(s, keep) == Unmarked(t, keep)
    ensures SameOutcomes(ChooseBody(cfg, s), ChooseBody(cfg, t), keep)
  {
    hide FindHeader, ContentLengthOf, LengthImplied, Opened;
    SameTests(cfg, s, t, keep);
    forall u, v | Unmarked(u, keep) == Unmarked(v, keep) ensures SameOutcomes(Opened(cfg, u), Opened(cfg, v), keep) {
      OpenedUnmarked(cfg, u, v, keep);
    }
  }

  lemma OpenedUnmarked(cfg: Config, s: State, t: State, keep: bool)
    requires Unmarked(s, keep) == Unmarked(t, keep)
    ensures SameOutcomes(Opened(cfg, s), Opened(cfg, t), keep)
  {
  }

  lemma SameTests(cfg: Config, s: State, t: State, keep: bool)
    requires Unmarked(s, keep) == Unmarked(t, keep)
    ensures s.msg.isChunked == t.msg.isChunked && s.head == t.head
    ensures LengthImplied(cfg, s.msg) == LengthImplied(cfg, t.msg)
  {
  }

  lemma FinishHeadersUnmarked(cfg: Config, s: State, t: State, keep: bool)
    requires Unmarked(s, keep) == Unmarked(t, keep)
    ensures SameOutcomes(FinishHeaders(cfg, s), FinishHeaders(cfg, t), keep)
  {
    hide Published, ChooseBody;
    PublishedUnmarked(cfg, s, t, keep);
    ChooseBodyUnmarked(cfg, Published(cfg, s), Published(cfg, t), keep);
  }

  ghost predicate SameSteps(r: StepResult, q: StepResult, keep: bool) {
    match (r, q)
    case (More(u), More(v)) => Unmarked(u, keep) == Unmarked(v, keep)
    case (Done(u, a), Done(v, b)) => Unmarked(u, keep) == Unmarked(v, keep) && a == b
    case (Fail(u, e), Fail(v, f)) => Unmarked(u, keep) == Unmarked(v, keep) && e == f
    case _ => false
  }

  lemma ConcatenatedUnmarked(s: State, t: State, cache: string, keep: bool)
    requires Unmarked(s, keep) == Unmarked(t, keep)
    ensures Unmarked(s.(msg := Concatenated(s.msg, cache)), keep) == Unmarked(t.(msg := Concatenated(t.msg, cache)), keep)
  {
  }

  lemma ContentStepUnmarked(cfg: Config, s: State, t: State, c: char, keep: bool)
    requires s.phase.Content? && Unmarked(s, keep) == Unmarked(t, keep)
    ensures SameSteps(BodyStep(cfg, s, c), BodyStep(cfg, t, c), keep)
  {
    hide Completed;
    if s.remaining == 0 {
      CompletedUnmarked(cfg, s, t, keep);
    } else {
      var m := if s.contentRead < cfg.cap then s.msg.(content := s.msg.content + [c]) else s.msg;
      var k := if t.contentRead < cfg.cap then t.msg.(content := t.msg.content + [c]) else t.msg;
      var s1 := CountContent(s.(remaining := s.remaining - 1, msg := m), 1);
      var t1 := CountContent(t.(remaining := t.remaining - 1, msg := k), 1);
      assert Unmarked(s1, keep) == Unmarked(t1, keep);
      CompletedUnmarked(cfg, s1, t1, keep);
    }
  }

  lemma ChunksStepUnmarked(cfg: Config, s: State, t: State, c: char, keep: bool)
    requires s.phase.Chunks? && Unmarked(s, keep) == Unmarked(t, keep)
    ensures SameSteps(BodyStep(cfg, s, c), BodyStep(cfg, t, c), keep)
  {
    hide Completed, ChunkStep, Concatenated;
    var r := ChunkStep(cfg.cap, s.chunk, c);
    if r.ChunkDone? {
      var (s1, t1) := (CountContent(s.(chunk := r.chunk), 1), CountContent(t.(chunk := r.chunk), 1));
      assert Unmarked(s1, keep) == Unmarked(t1, keep);
      ConcatenatedUnmarked(s1, t1, r.chunk.cache, keep);
      CompletedUnmarked(cfg, s1.(msg := Concatenated(s1.msg, r.chunk.cache)), t1.(msg := Concatenated(t1.msg, r.chunk.cache)), keep);
    }
  }

  lemma BodyStepUnmarked(cfg: Config, s: State, t: State, c: char, keep: bool)
    requires !s.phase.Start? && !s.phase.Headers? && Unmarked(s, keep) == Unmarked(t, keep)
    ensures SameSteps(BodyStep(cfg, s, c), BodyStep(cfg, t, c), keep)
  {
    hide Completed, ChunkStep;
    match s.phase {
      case Content => ContentStepUnmarked(cfg, s, t, c, keep);
      case Chunks => ChunksStepUnmarked(cfg, s, t, c, keep);
      case ContentNoLength =>
      case End => CompletedUnmarked(cfg, s, t, keep);
    }
  }

  lemma StepUnmarked(cfg: Config, s: State, t: State, c: char, keep: bool)
    requires Unmarked(s, keep) == Unmarked(t, keep)
    ensures SameSteps(Step(cfg, s, c), Step(cfg, t, c), keep)
  {
    hide HeadStep, FinishHeaders, BodyStep, Completed;
    var (s1, t1) := (Touch(s), Touch(t));
    assert Unmarked(s1, keep) == Unmarked(t1, keep);
    if s.phase.Start? || s.phase.Headers? {
      var r := HeadStep(cfg, s.head, c);
      if r.HeadDone? {
        var n := if r.consumed then 1 else 0;
        var (s2, t2) := (Count(s1.(phase := Headers, head := r.head), n), Count(t1.(phase := Headers, head := r.head), n));
        FinishHeadersUnmarked(cfg, s2, t2, keep);
        InvHeadersPhase(cfg, s2);
        var (f, g) := (FinishHeaders(cfg, s2), FinishHeaders(cfg, t2));
        if f.NoMoreBody? {
          CompletedUnmarked(cfg, f.state, g.state, keep);
        } else if f.BodyFollows? {
          BodyStepUnmarked(cfg, f.state, g.state, c, keep);
        }
      }
    } else {
      BodyStepUnmarked(cfg, s1, t1, c, keep);
    }
  }

  /** Parsers that differ only in the marks of lost packets go on alike. */
  lemma {:induction false} MarksAreHarmless(cfg: Config, s: State, t: State, data: string, keep: bool)
    requires Unmarked(s, keep) == Unmarked(t, keep)
    ensures SameUnmarked(Run(cfg, s, data), Run(cfg, t, data), keep)
    decreases |data|
  {
    hide Step, Unmarked;
    if data != "" {
      StepUnmarked(cfg, s, t, data[0], keep);
      if Step(cfg, s, data[0]).More? {
        MarksAreHarmless(cfg, Step(cfg, s, data[0]).state, Step(cfg, t, data[0]).state, data[1..], keep);
      }
    }
  }

  // ------------------------------------------------------------- whole messages

  /** A body whose buffer a gap has left shorter than it would be, for good. */
  predicate Apart(cfg: Config, s: State, t: State) {
    s.phase.Content? && t.phase.Content? && s.contentRead >= cfg.cap && |s.msg.content| < |t.msg.content|
  }

  ghost predicate ApartVerdicts(cfg: Config, v: Verdict, w: Verdict) {
    if v.Undecided? then Apart(cfg, v.state, w.state) else |v.state.msg.content| < |w.state.msg.content|
  }

  lemma StepStaysOpen(cfg: Config, s: State, c: char)
    requires !s.phase.End? && Step(cfg, s, c).More?
    ensures !Step(cfg, s, c).state.phase.End?
  {
    hide HeadStep, FinishHeaders, ChunkStep, Completed;
    var t := Touch(s);
    if t.phase.Start? || t.phase.Headers? {
      var r := HeadStep(cfg, t.head, c);
      if r.HeadDone? {
        InvHeadersPhase(cfg, Count(t.(phase := Headers, head := r.head), if r.consumed then 1 else 0));
      }
    }
  }

  lemma {:induction false} RunStaysOpen(cfg: Config, s: State, data: string)
    requires !s.phase.End? && Run(cfg, s, data).Undecided?
    ensures !Run(cfg, s, data).state.phase.End?
    decreases |data|
  {
    hide Step;
    if data != "" {
      StepStaysOpen(cfg, s, data[0]);
      RunStaysOpen(cfg, Step(cfg, s, data[0]).state, data[1..]);
    }
  }

  lemma ReactKeeps(cfg: Config, s: State, i: Input)
    requires Inv(cfg, s) && !s.phase.End? && React(cfg, s, i).Undecided?
    ensures Inv(cfg, React(cfg, s, i).state) && !React(cfg, s, i).state.phase.End?
  {
    hide Run, Inv;
    match i {
      case Bytes(d) =>
        InvRun(cfg, s, d);
        RunStaysOpen(cfg, s, d);
      case Gap(n) => InvMissing(cfg, s, n);
    }
  }

  lemma Transitive(u: Verdict, v: Verdict, w: Verdict, keep: bool)
    requires SameUnmarked(u, v, keep) && SameUnmarked(v, w, keep)
    ensures SameUnmarked(u, w, keep)
  {
  }

  /** One input: the marks of the two parsers and their buffers afterwards. */
  lemma ReactAgrees(cfg: Config, s: State, t: State, i: Input)
    requires Inv(cfg, s) && !s.phase.End? && Unmarked(s, false) == Unmarked(t, false)
    requires i.Gap? ==> !React(cfg, s, i).Failed?
    ensures var (v, w) := (React(cfg, s, i), Run(cfg, t, SpelledOut(i)));
            && SameUnmarked(v, w, false)
            && (s.msg.content == t.msg.content && !CrossesNow(cfg, s, i) ==> SameUnmarked(v, w, true))
  {
    hide Run, Inv, Unmarked, MissingData;
    UnmarkedParts(s, t);
    MarksAreHarmless(cfg, s, t, SpelledOut(i), false);
    if i.Gap? {
      LostDataIsDummyData(cfg, s, i.len);
      Transitive(React(cfg, s, i), Run(cfg, s, Dummy(i.len)), Run(cfg, t, Dummy(i.len)), false);
    }
    if s.msg.content == t.msg.content && !CrossesNow(cfg, s, i) {
      MarksAreHarmless(cfg, s, t, SpelledOut(i), true);
      if i.Gap? {
        Transitive(React(cfg, s, i), Run(cfg, s, Dummy(i.len)), Run(cfg, t, Dummy(i.len)), true);
      }
    }
  }

  lemma SameMeans(v: Verdict, w: Verdict)
    requires SameUnmarked(v, w, false)
    ensures SameUnmarked(v, w, true) <==> v.state.msg.content == w.state.msg.content
    ensures Unmarked(v.state, false) == Unmarked(w.state, false)
  {
  }

  /** A gap across the cap sets the buffers apart. */
  lemma CrossingSetsApart(cfg: Config, s: State, t: State, n: nat)
    requires Inv(cfg, s) && Unmarked(s, true) == Unmarked(t, true) && CrossesNow(cfg, s, Gap(n))
    requires !MissingData(cfg, s, n).Failed?
    ensures ApartVerdicts(cfg, MissingData(cfg, s, n), Run(cfg, t, Dummy(n)))
  {
    hide Run, Completed, Fitting;
    assert s.remaining > 0;
    TouchIsHarmless(cfg, t, Dummy(n));
    RunContent(cfg, Touch(t), Dummy(n));
    var (lost, read) := (LostContentState(cfg, s, n), ContentAfter(cfg, Touch(t), Dummy(n)));
    ContentsCompare(cfg, t, n);
    CompletedKeepsContent(cfg, lost);
    CompletedKeepsContent(cfg, read);
  }

  /** In a body beyond the cap, bytes leave the buffer as it is. */
  lemma BytesBeyondCap(cfg: Config, s: State, data: string)
    requires s.phase.Content? && s.remaining > 0 && s.contentRead >= cfg.cap
    ensures var v := Run(cfg, s, data);
            && v.state.msg.content == s.msg.content && !v.Failed?
            && (v.Undecided? ==> v.state.phase.Content? && v.state.contentRead >= cfg.cap && v.state.remaining > 0)
  {
    hide Completed, Step;
    if data != "" {
      var (t, n) := (Touch(s), Min(|data|, s.remaining));
      TouchIsHarmless(cfg, s, data);
      assert data == data[..n] + data[n..] && t == Touch(t);
      RunContent(cfg, t, data[..n]);
      RunConcat(cfg, t, data[..n], data[n..]);
      CompletedKeepsContent(cfg, ContentAfter(cfg, t, data[..n]));
      assert s.msg.content + "" == s.msg.content;
      assert n == |data| ==> data[..n] == data && data[n..] == "";
    }
  }

  lemma GapBeyondCap(cfg: Config, s: State, n: nat)
    requires s.phase.Content? && s.remaining > 0 && s.contentRead >= cfg.cap && !MissingData(cfg, s, n).Failed?
    ensures var v := MissingData(cfg, s, n);
            && v.state.msg.content == s.msg.content
            && (v.Undecided? ==> v.state.phase.Content? && v.state.contentRead >= cfg.cap && v.state.remaining > 0)
  {
    hide Completed;
    assert n == 0 ==> s.msg.content + Dummy(n) == s.msg.content;
    var m := s.msg.(missing := true);
    var lost := CountContent(s.(remaining := s.remaining - n,
                                msg := if s.contentRead + n <= cfg.cap then m.(content := m.content + Dummy(n)) else m), n);
    CompletedKeepsContent(cfg, lost);
  }

  lemma ApartStays(cfg: Config, s: State, t: State, i: Input)
    requires Inv(cfg, s) && Apart(cfg, s, t) && Unmarked(s, false) == Unmarked(t, false)
    requires i.Gap? ==> !React(cfg, s, i).Failed?
    ensures SameUnmarked(React(cfg, s, i), Run(cfg, t, SpelledOut(i)), false) ==>
              ApartVerdicts(cfg, React(cfg, s, i), Run(cfg, t, SpelledOut(i)))
  {
    hide Run, MissingData;
    BytesBeyondCap(cfg, t, SpelledOut(i));
    if i.Gap? {
      GapBeyondCap(cfg, s, i.len);
    } else {
      BytesBeyondCap(cfg, s, i.data);
    }
  }

  /** The general case: parsers that differ in marks, and in buffers if the second one has
      seen dummy bytes where a gap crossed the cap. */
  lemma {:induction false} GapsAgree(cfg: Config, s: State, t: State, inputs: seq<Input>)
    requires Inv(cfg, s) && !s.phase.End? && GapsAccepted(cfg, s, inputs)
    requires Unmarked(s, false) == Unmarked(t, false)
    ensures var (v, w) := (Consumed(cfg, s, inputs), Run(cfg, t, Spelled(inputs)));
            && SameUnmarked(v, w, false)
            && (s.msg.content == t.msg.content ==> (v.state.msg.content == w.state.msg.content <==> !Crosses(cfg, s, inputs)))
            && (Apart(cfg, s, t) ==> v.state.msg.content != w.state.msg.content)
    decreases |inputs|
  {
    hide Run, Inv, Unmarked, MissingData, CrossesNow;
    if inputs != [] {
      var (i, more) := (inputs[0], Spelled(inputs[1..]));
      var (v, w) := (React(cfg, s, i), Run(cfg, t, SpelledOut(i)));
      ReactAgrees(cfg, s, t, i);
      SameMeans(v, w);
      RunConcat(cfg, t, SpelledOut(i), more);
      if Apart(cfg, s, t) {
        ApartStays(cfg, s, t, i);
      }
      if s.msg.content == t.msg.content && CrossesNow(cfg, s, i) {
        UnmarkedParts(s, t);
        CrossesIsGap(cfg, s, i);
        CrossingSetsApart(cfg, s, t, i.len);
      }
      if v.Undecided? {
        ReactKeeps(cfg, s, i);
        GapsAgree(cfg, v.state, w.state, inputs[1..]);
      }
    } else {
      RunNothing(cfg, t);
    }
  }

  lemma CrossesIsGap(cfg: Config, s: State, i: Input)
    ensures CrossesNow(cfg, s, i) ==> i.Gap?
  {
  }

  /** Over a whole message with any accepted gaps, the verdict, the state, the counters and
      what is left unread are those of the stream whose gaps are filled with dummy bytes.
      The buffer is the same too, exactly if no gap crosses the content cap. */
  lemma GapsAreDummies(cfg: Config, s: State, inputs: seq<Input>)
    requires Inv(cfg, s) && !s.phase.End? && GapsAccepted(cfg, s, inputs)
    ensures SameUnmarked(Consumed(cfg, s, inputs), Run(cfg, s, Spelled(inputs)), false)
    ensures SameUnmarked(Consumed(cfg, s, inputs), Run(cfg, s, Spelled(inputs)), true) <==> !Crosses(cfg, s, inputs)
  {
    hide Run, Inv, Unmarked;
    GapsAgree(cfg, s, s, inputs);
    SameMeans(Consumed(cfg, s, inputs), Run(cfg, s, Spelled(inputs)));
  }

  lemma {:induction false} ConsumeSnoc(cfg: Config, s: State, inputs: seq<Input>, i: Input)
    ensures var v := Consume(cfg, s, inputs);
            Consume(cfg, s, inputs + [i]) == if v.Undecided? then React(cfg, v.state, i) else v
    ensures GapsAccepted(cfg, s, inputs + [i]) ==> GapsAccepted(cfg, s, inputs)
    decreases |inputs|
  {
    hide React;
    if inputs == [] {
      assert [] + [i] == [i] && [i][1..] == [];
    } else {
      assert (inputs + [i])[0] == inputs[0] && (inputs + [i])[1..] == inputs[1..] + [i];
      var v := React(cfg, s, inputs[0]);
      if v.Undecided? {
        ConsumeSnoc(cfg, v.state, inputs[1..], i);
      }
    }
  }

  /** What gaps leave of an unfinished message: the state of the stream with dummy bytes, up
      to the marks, and the same buffer exactly if no gap has crossed the cap. */
  lemma UnfinishedWithGaps(cfg: Config, s: State, inputs: seq<Input>)
    requires Inv(cfg, s) && !s.phase.End? && GapsAccepted(cfg, s, inputs)
    ensures var (v, w) := (Consume(cfg, s, inputs), Run(cfg, s, Spelled(inputs)));
            && (v.Undecided? <==> w.Undecided?)
            && (w.Undecided? ==>
                  && Unmarked(v.state, false) == Unmarked(w.state, false)
                  && (v.state.msg.content == w.state.msg.content <==> !Crosses(cfg, s, inputs)))
  {
    hide Run, Inv, Unmarked;
    GapsAgree(cfg, s, s, inputs);
    SameMeans(Consumed(cfg, s, inputs), Run(cfg, s, Spelled(inputs)));
  }

  /** Every byte read or lost is counted once: an undecided run has counted all of its
      inputs, a completed one all but what it leaves. */
  lemma {:induction false} ConsumeCounts(cfg: Config, s: State, inputs: seq<Input>)
    ensures var v := Consume(cfg, s, inputs);
            v.Undecided? ==> v.state.totalRead == s.totalRead + InputLength(inputs)
    ensures var v := Consume(cfg, s, inputs);
            Inv(cfg, s) && !s.phase.End? && v.Complete? ==>
              v.state.totalRead + |v.rest| + InputLength(Left(cfg, s, inputs)) == s.totalRead + InputLength(inputs)
    decreases |inputs|
  {
    hide Run, Inv, MissingData;
    if inputs != [] {
      match inputs[0] {
        case Bytes(d) => RunCounts(cfg, s, d);
        case Gap(n) => GapCounts(cfg, s, n);
      }
      var v := React(cfg, s, inputs[0]);
      if v.Undecided? {
        if Inv(cfg, s) && !s.phase.End? {
          ReactKeeps(cfg, s, inputs[0]);
        }
        ConsumeCounts(cfg, v.state, inputs[1..]);
      }
    }
  }

  lemma GapCounts(cfg: Config, s: State, n: nat)
    ensures var v := MissingData(cfg, s, n);
            && (v.Undecided? ==> v.state.totalRead == s.totalRead + n)
            && (Inv(cfg, s) && !s.phase.End? && v.Complete? ==> v.state.totalRead == s.totalRead + n && v.rest == "")
  {
    hide Finish;
  }
}
