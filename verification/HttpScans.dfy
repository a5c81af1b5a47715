/** The scanners of HTTPParser on whole buffers: how far parseHeaders and parseChunks get,
    what a call of parse reports, and how a stretch of input moves the machine on. */
module HttpScans {
  import opened HttpTypes
  import opened HttpMachine
  import opened HttpRuns

  datatype HeadVerdict =
    | HeadUndecided(head: Head)
    | HeadComplete(head: Head, rest: string)
    | HeadBad(head: Head, error: Error)

  function HeadRun(cfg: Config, h: Head, input: string): HeadVerdict
    decreases |input|
  {
    if input == "" then HeadUndecided(h)
    else
      match HeadStep(cfg, h, input[0])
      case HeadMore(h1) => HeadRun(cfg, h1, input[1..])
      case HeadDone(h1, consumed) => HeadComplete(h1, if consumed then input[1..] else input)
      case HeadFailed(h1, e) => HeadBad(h1, e)
  }

  datatype ChunkVerdict =
    | ChunksUndecided(chunk: Chunk)
    | ChunksComplete(chunk: Chunk, rest: string)
    | ChunksBad(chunk: Chunk)

  ghost function ChunkRun(cap: nat, k: Chunk, input: string): ChunkVerdict
    decreases |input|
  {
    if input == "" then ChunksUndecided(k)
    else
      match ChunkStep(cap, k, input[0])
      case ChunkMore(k1) => ChunkRun(cap, k1, input[1..])
      case ChunkDone(k1) => ChunksComplete(k1, input[1..])
      case ChunkFailed(k1) => ChunksBad(k1)
  }

  ghost function Uncounted(s: State): State { s.(totalRead := 0, contentRead := 0) }

  /** Equal verdicts, but for the counters of failed ones. */
  ghost predicate Agrees(v: Verdict, w: Verdict) {
    if v.Failed? then w.Failed? && v.error == w.error && Uncounted(v.state) == Uncounted(w.state)
    else v == w
  }

  /** The counters that a failing call of parse leaves: of the bytes of that call, only
      those of a complete header block are counted. */
  function Kept(cfg: Config, s: State, input: string): (nat, nat) {
    HeadRestIsSuffix(cfg, s.head, input);
    if !s.phase.Start? && !s.phase.Headers? then (s.totalRead, s.contentRead)
    else
      match HeadRun(cfg, s.head, input)
      case HeadComplete(_, rest) => (s.totalRead + |input| - |rest|, 0)
      case _ => (s.totalRead, s.contentRead)
  }

  /** The verdict of one call of parse: that of the machine, with the counters that the
      call leaves if it fails. */
  function Parsed(cfg: Config, s: State, input: string): Verdict {
    match Run(cfg, s, input)
    case Failed(t, e) =>
      var (total, content) := Kept(cfg, s, input);
      Failed(t.(totalRead := total, contentRead := content), e)
    case v => v
  }

  ghost predicate FailsAs(cfg: Config, s: State, input: string, t: State, e: Error) {
    Agrees(Failed(t, e), Run(cfg, s, input)) && (t.totalRead, t.contentRead) == Kept(cfg, s, input)
  }

  lemma FailsExactly(cfg: Config, s: State, input: string, t: State, e: Error)
    requires FailsAs(cfg, s, input, t, e)
    ensures Parsed(cfg, s, input) == Failed(t, e)
  {
    hide Run, Kept;
  }

  lemma ParsedIsRun(cfg: Config, s: State, input: string)
    ensures Agrees(Parsed(cfg, s, input), Run(cfg, s, input))
    ensures !Run(cfg, s, input).Failed? ==> Parsed(cfg, s, input) == Run(cfg, s, input)
  {
    hide Run, Kept;
  }

  /** Reading rest in state t comes to the same verdict as reading input in state s. */
  ghost predicate Continues(cfg: Config, s: State, input: string, t: State, rest: string) {
    && Agrees(Run(cfg, t, rest), Run(cfg, s, input))
    && (rest != "" ==> Kept(cfg, t, rest) == Kept(cfg, s, input))
    && t == Touch(t) && Inv(cfg, t)
  }

  /** What one stretch of input has achieved, before finish is called. */
  ghost predicate Advances(cfg: Config, s: State, input: string, rc: Tribool, ec: Error, t: State, rest: string) {
    match rc
    case Indeterminate =>
      && Continues(cfg, s, input, t, rest)
      && (|rest| < |input| || (|rest| == |input| && s.phase in {Start, Headers} && t.phase !in {Start, Headers}))
    case True => Run(cfg, s, input) == Complete(Completed(cfg, t), rest)
    case False => FailsAs(cfg, s, input, Rejected(t), ec)
  }

  lemma FinishAdvances(cfg: Config, s: State, input: string, f: HeaderOutcome, rest: string, rc: Tribool, ec: Error, t: State)
    requires HeadersFinish(cfg, s, input, f, rest) && |rest| <= |input| && s.phase in {Start, Headers}
    requires t == f.state && match f
             case BodyFollows(_) => rc == Indeterminate
             case NoMoreBody(_) => rc == True
             case BadLength(_) => rc == False && ec == InvalidContentLength
    ensures Advances(cfg, s, input, rc, ec, t, rest)
  {
  }

  /** What the loop of parse has found out, before finish is called. */
  ghost predicate Decides(cfg: Config, s: State, input: string, rc: Tribool, ec: Error, t: State, rest: string) {
    match rc
    case Indeterminate => rest == "" && Run(cfg, s, input) == Undecided(t)
    case True => Run(cfg, s, input) == Complete(Completed(cfg, t), rest)
    case False => FailsAs(cfg, s, input, Rejected(t), ec)
  }

  lemma AdvancesTowards(cfg: Config, s: State, input: string, t: State, rest: string,
                        rc: Tribool, ec: Error, t': State, rest': string)
    requires Continues(cfg, s, input, t, rest) && rest != "" && Advances(cfg, t, rest, rc, ec, t', rest')
    ensures if rc == Indeterminate then Continues(cfg, s, input, t', rest')
            else Decides(cfg, s, input, rc, ec, t', rest')
  {
    hide Run, Inv, Completed, Rejected, Kept;
  }

  /** A call of parse reports the verdict v: an undecided call has read everything, a
      finished one stops at the first byte after the message. */
  ghost predicate Reports(v: Verdict, rc: Tribool, ec: Error, t: State, rest: string) {
    match rc
    case Indeterminate => v == Undecided(t) && rest == ""
    case True => v == Complete(t, rest)
    case False => v == Failed(t, ec)
  }

  lemma DecidesReports(cfg: Config, s: State, input: string, rc: Tribool, ec: Error, t: State, rest: string)
    requires Decides(cfg, s, input, rc, ec, t, rest)
    ensures Reports(Parsed(cfg, s, input), rc, ec,
                    match rc case True => Completed(cfg, t) case False => Rejected(t) case Indeterminate => t, rest)
  {
    hide Run, Parsed, Completed, Rejected, FailsAs;
    ParsedIsRun(cfg, s, input);
    if rc == False {
      FailsExactly(cfg, s, input, Rejected(t), ec);
    }
  }

  lemma ReportsKeepInv(cfg: Config, s: State, input: string, rc: Tribool, ec: Error, t: State, rest: string)
    requires Inv(cfg, s) && Reports(Parsed(cfg, s, input), rc, ec, t, rest)
    ensures Inv(cfg, t)
  {
    hide Run, Parsed, Inv;
    InvParsed(cfg, s, input);
  }

  lemma StepFailsEarly(cfg: Config, s: State, c: char)
    ensures var r := Step(cfg, s, c); r.Fail? ==> r.state.phase in {Headers, Chunks}
  {
    hide HeadStep, FindHeader, ContentLengthOf, ChunkedCoding, LengthImplied, ChunkStep, Completed;
  }

  /** No body of known length is ever refused for what it holds. */
  lemma {:induction false} RunFailsEarly(cfg: Config, s: State, input: string)
    ensures var v := Run(cfg, s, input); v.Failed? ==> v.state.phase in {Headers, Chunks}
    decreases |input|
  {
    hide Step;
    if input != "" {
      StepFailsEarly(cfg, s, input[0]);
      if Step(cfg, s, input[0]).More? {
        RunFailsEarly(cfg, Step(cfg, s, input[0]).state, input[1..]);
      }
    }
  }

  /** A call of parse keeps the accounting right, whether or not it fails. */
  lemma InvParsed(cfg: Config, s: State, input: string)
    requires Inv(cfg, s)
    ensures Inv(cfg, Parsed(cfg, s, input).state)
  {
    hide Run, Kept, ChunkedCoding, FindHeader, LengthRefused;
    InvRun(cfg, s, input);
    RunFailsEarly(cfg, s, input);
  }

  /** What the machine makes of a verdict of the header scanner. */
  ghost function AfterHead(cfg: Config, s: State, input: string, v: HeadVerdict): Verdict
    requires v.HeadComplete? ==> |v.rest| <= |input|
  {
    match v
    case HeadUndecided(h) => Undecided(Count(s.(phase := Headers, head := h), |input|))
    case HeadBad(h, e) => Failed(Rejected(s.(phase := Headers, head := h)), e)
    case HeadComplete(h, rest) =>
      AfterFinish(cfg, FinishHeaders(cfg, Count(s.(phase := Headers, head := h), |input| - |rest|)), rest)
  }

  ghost function AfterFinish(cfg: Config, f: HeaderOutcome, rest: string): Verdict {
    match f
    case BadLength(s) => Failed(Rejected(s), InvalidContentLength)
    case NoMoreBody(s) => Complete(Completed(cfg, s), rest)
    case BodyFollows(s) => Run(cfg, s, rest)
  }

  lemma {:induction false} HeadRestIsSuffix(cfg: Config, h: Head, input: string)
    ensures var v := HeadRun(cfg, h, input);
            v.HeadComplete? ==> |v.rest| <= |input| && v.rest == input[|input| - |v.rest|..]
    decreases |input|
  {
    hide HeadStep;
    if input != "" {
      var r := HeadStep(cfg, h, input[0]);
      if r.HeadMore? {
        HeadRestIsSuffix(cfg, r.head, input[1..]);
      }
    }
  }

  lemma {:induction false} RunHead(cfg: Config, s: State, input: string)
    requires (s.phase.Start? || s.phase.Headers?) && s == Touch(s) && input != ""
    ensures (HeadRestIsSuffix(cfg, s.head, input);
             Agrees(AfterHead(cfg, s, input, HeadRun(cfg, s.head, input)), Run(cfg, s, input)))
    decreases |input|
  {
    hide HeadStep, FinishHeaders, BodyStep, Completed;
    HeadRestIsSuffix(cfg, s.head, input);
    var r := HeadStep(cfg, s.head, input[0]);
    match r {
      case HeadMore(h) =>
        var s1 := Count(s.(phase := Headers, head := h), 1);
        HeadRestIsSuffix(cfg, h, input[1..]);
        if |input| > 1 {
          RunHead(cfg, s1, input[1..]);
          AfterHeadShift(cfg, s, s1, input, HeadRun(cfg, h, input[1..]));
        } else {
          assert HeadRun(cfg, h, input[1..]) == HeadUndecided(h);
        }
      case HeadFailed(_, _) =>
      case HeadDone(h, consumed) => RunHeadDone(cfg, s, input);
    }
  }

  lemma RunHeadDone(cfg: Config, s: State, input: string)
    requires (s.phase.Start? || s.phase.Headers?) && s == Touch(s) && input != ""
    requires HeadStep(cfg, s.head, input[0]).HeadDone?
    ensures var r := HeadStep(cfg, s.head, input[0]);
            Agrees(AfterHead(cfg, s, input, HeadComplete(r.head, if r.consumed then input[1..] else input)),
                   Run(cfg, s, input))
  {
    hide HeadStep, FinishHeaders, ChunkStep, Completed;
    var r := HeadStep(cfg, s.head, input[0]);
    var s1 := Count(s.(phase := Headers, head := r.head), if r.consumed then 1 else 0);
    var f := FinishHeaders(cfg, s1);
    InvHeadersPhase(cfg, s1);
    FinishKeepsTouch(cfg, s1);
    if f.BodyFollows? && !r.consumed {
      assert Step(cfg, s, input[0]) == BodyStep(cfg, f.state, input[0]) == Step(cfg, f.state, input[0]);
    }
  }

  lemma FinishKeepsTouch(cfg: Config, s: State)
    requires s == Touch(s)
    ensures FinishHeaders(cfg, s).state == Touch(FinishHeaders(cfg, s).state)
  {
  }

  lemma AfterHeadShift(cfg: Config, s: State, s1: State, input: string, v: HeadVerdict)
    requires input != "" && (v.HeadComplete? ==> |v.rest| < |input|)
    requires s1.totalRead == s.totalRead + 1 && s1.(head := s.head, phase := s.phase, totalRead := s.totalRead) == s
    ensures Agrees(AfterHead(cfg, s, input, v), AfterHead(cfg, s1, input[1..], v))
    ensures !v.HeadBad? ==> AfterHead(cfg, s, input, v) == AfterHead(cfg, s1, input[1..], v)
  {
  }

  /** What a finished header block leads to, when rest is left of the input. */
  ghost predicate HeadersFinish(cfg: Config, s: State, input: string, f: HeaderOutcome, rest: string) {
    match f
    case BodyFollows(t) => Continues(cfg, s, input, t, rest) && t.phase in {Chunks, Content, ContentNoLength}
    case NoMoreBody(t) => Run(cfg, s, input) == Complete(Completed(cfg, t), rest)
    case BadLength(t) => FailsAs(cfg, s, input, Rejected(t), InvalidContentLength)
  }

  ghost predicate HeadersAdvance(cfg: Config, s: State, input: string, v: HeadVerdict) {
    match v
    case HeadUndecided(h) => Continues(cfg, s, input, Count(s.(phase := Headers, head := h), |input|), "")
    case HeadBad(h, e) => FailsAs(cfg, s, input, Rejected(s.(phase := Headers, head := h)), e)
    case HeadComplete(h, rest) =>
      && |rest| <= |input|
      && HeadersFinish(cfg, s, input, FinishHeaders(cfg, Count(s.(phase := Headers, head := h), |input| - |rest|)), rest)
  }

  /** A header stretch in terms of the machine: what remains to be read, or the end. */
  lemma HeaderStretch(cfg: Config, s: State, input: string)
    requires Inv(cfg, s) && (s.phase.Start? || s.phase.Headers?) && s == Touch(s) && input != ""
    ensures HeadersAdvance(cfg, s, input, HeadRun(cfg, s.head, input))
  {
    hide HeadStep, FinishHeaders, Run, HeadRun, Completed;
    HeadRestIsSuffix(cfg, s.head, input);
    RunHead(cfg, s, input);
    var v := HeadRun(cfg, s.head, input);
    if v.HeadComplete? {
      HeadersFinished(cfg, s, input, Count(s.(phase := Headers, head := v.head), |input| - |v.rest|), v.rest);
    } else if v.HeadUndecided? {
      RunNothing(cfg, Count(s.(phase := Headers, head := v.head), |input|));
    }
  }

  lemma HeadersFinished(cfg: Config, s: State, input: string, s1: State, rest: string)
    requires Inv(cfg, s1) && s1.phase.Headers? && s1 == Touch(s1)
    requires Agrees(AfterFinish(cfg, FinishHeaders(cfg, s1), rest), Run(cfg, s, input))
    requires Kept(cfg, s, input) == (s1.totalRead, 0)
    ensures HeadersFinish(cfg, s, input, FinishHeaders(cfg, s1), rest)
  {
    FinishKeepsTouch(cfg, s1);
    InvHeadersPhase(cfg, s1);
    if FinishHeaders(cfg, s1).BodyFollows? {
      InvHeaders(cfg, s1);
    }
  }

  lemma ContentStretch(cfg: Config, s: State, input: string)
    requires Inv(cfg, s) && s.phase.Content? && s == Touch(s) && input != ""
    ensures var n := Min(|input|, s.remaining);
            var t := ContentAfter(cfg, s, input[..n]);
            if n == s.remaining then Run(cfg, s, input) == Complete(Completed(cfg, t), input[n..])
            else n == |input| && Continues(cfg, s, input, t, "")
  {
    hide Run, Completed, Inv, Fitting;
    var n := Min(|input|, s.remaining);
    ContentFacts(cfg, s);
    ContentRoom(cfg, s, 0);
    RunContent(cfg, s, input[..n]);
    assert input == input[..n] + input[n..];
    RunConcat(cfg, s, input[..n], input[n..]);
    InvRun(cfg, s, input[..n]);
    RunNothing(cfg, ContentAfter(cfg, s, input[..n]));
    assert n == |input| ==> input[..n] == input && input[n..] == "";
  }

  lemma ContentAdvances(cfg: Config, s: State, input: string)
    requires Inv(cfg, s) && s.phase.Content? && s == Touch(s) && input != ""
    ensures var n := Min(|input|, s.remaining);
            Advances(cfg, s, input, if n == s.remaining then True else Indeterminate, NotSet,
                     ContentAfter(cfg, s, input[..n]), input[n..])
  {
    hide Run, Inv, Fitting, Continues, Completed;
    var n := Min(|input|, s.remaining);
    ContentReady(cfg, s);
    ContentStretch(cfg, s, input);
    assert n == |input| ==> input[n..] == "";
  }

  lemma NoLengthAdvances(cfg: Config, s: State, input: string)
    requires Inv(cfg, s) && s.phase.ContentNoLength? && s == Touch(s) && input != ""
    ensures Advances(cfg, s, input, Indeterminate, NotSet, NoLengthAfter(cfg, s, input), "")
  {
    hide Run, Inv, CachedAll;
    RunNoLength(cfg, s, input);
    InvRun(cfg, s, input);
    RunNothing(cfg, NoLengthAfter(cfg, s, input));
  }

  lemma EndAdvances(cfg: Config, s: State, input: string)
    requires s.phase.End? && s == Touch(s) && input != ""
    ensures Advances(cfg, s, input, True, NotSet, s, input)
  {
    hide Completed;
  }

  ghost function AfterChunks(cfg: Config, s: State, input: string, v: ChunkVerdict): Verdict
    requires v.ChunksComplete? ==> |v.rest| <= |input|
  {
    match v
    case ChunksUndecided(k) => Undecided(CountContent(s.(chunk := k), |input|))
    case ChunksBad(k) => Failed(Rejected(s.(chunk := k)), ChunkChar)
    case ChunksComplete(k, rest) =>
      var s1 := CountContent(s.(chunk := k), |input| - |rest|);
      Complete(Completed(cfg, s1.(msg := Concatenated(s1.msg, k.cache))), rest)
  }

  lemma {:induction false} ChunkRestIsSuffix(cap: nat, k: Chunk, input: string)
    ensures var v := ChunkRun(cap, k, input);
            v.ChunksComplete? ==> |v.rest| <= |input| && v.rest == input[|input| - |v.rest|..]
    decreases |input|
  {
    hide ChunkStep;
    if input != "" {
      var r := ChunkStep(cap, k, input[0]);
      if r.ChunkMore? {
        ChunkRestIsSuffix(cap, r.chunk, input[1..]);
      }
    }
  }

  /** One byte of a chunked body, in terms of the chunk scanner. */
  lemma StepInChunks(cfg: Config, s: State, c: char)
    requires s.phase.Chunks? && s == Touch(s)
    ensures Step(cfg, s, c) ==
            match ChunkStep(cfg.cap, s.chunk, c)
            case ChunkMore(k) => More(CountContent(s.(chunk := k), 1))
            case ChunkFailed(k) => Fail(Rejected(s.(chunk := k)), ChunkChar)
            case ChunkDone(k) =>
              var t := CountContent(s.(chunk := k), 1);
              Done(Completed(cfg, t.(msg := Concatenated(t.msg, k.cache))), true)
  {
    hide ChunkStep, HeadStep, FinishHeaders, Completed, Concatenated;
  }

  lemma AfterChunksShift(cfg: Config, s: State, k: Chunk, input: string, v: ChunkVerdict)
    requires input != "" && (v.ChunksComplete? ==> |v.rest| < |input|)
    ensures Agrees(AfterChunks(cfg, s, input, v), AfterChunks(cfg, CountContent(s.(chunk := k), 1), input[1..], v))
  {
    hide Completed;
  }

  lemma {:induction false} RunChunks(cfg: Config, s: State, input: string)
    requires s.phase.Chunks? && s == Touch(s)
    ensures (ChunkRestIsSuffix(cfg.cap, s.chunk, input);
             Agrees(AfterChunks(cfg, s, input, ChunkRun(cfg.cap, s.chunk, input)), Run(cfg, s, input)))
    decreases |input|
  {
    hide Step, ChunkStep, Completed, Concatenated;
    ChunkRestIsSuffix(cfg.cap, s.chunk, input);
    if input != "" {
      StepInChunks(cfg, s, input[0]);
      var r := ChunkStep(cfg.cap, s.chunk, input[0]);
      if r.ChunkMore? {
        ChunkRestIsSuffix(cfg.cap, r.chunk, input[1..]);
        RunChunks(cfg, CountContent(s.(chunk := r.chunk), 1), input[1..]);
        AfterChunksShift(cfg, s, r.chunk, input, ChunkRun(cfg.cap, r.chunk, input[1..]));
      }
    }
  }

  ghost predicate ChunksAdvance(cfg: Config, s: State, input: string, v: ChunkVerdict) {
    match v
    case ChunksUndecided(k) => Continues(cfg, s, input, CountContent(s.(chunk := k), |input|), "")
    case ChunksBad(k) => FailsAs(cfg, s, input, Rejected(s.(chunk := k)), ChunkChar)
    case ChunksComplete(k, rest) =>
      && |rest| <= |input|
      && var t := CountContent(s.(chunk := k), |input| - |rest|);
         Run(cfg, s, input) == Complete(Completed(cfg, t.(msg := Concatenated(t.msg, k.cache))), rest)
  }

  lemma ChunkStretch(cfg: Config, s: State, input: string)
    requires Inv(cfg, s) && s.phase.Chunks? && s == Touch(s)
    ensures ChunksAdvance(cfg, s, input, ChunkRun(cfg.cap, s.chunk, input))
  {
    hide Run, ChunkRun, HeadRun, Completed, Concatenated, Inv;
    ChunkRestIsSuffix(cfg.cap, s.chunk, input);
    RunChunks(cfg, s, input);
    InvRun(cfg, s, input);
    var v := ChunkRun(cfg.cap, s.chunk, input);
    if v.ChunksUndecided? {
      RunNothing(cfg, CountContent(s.(chunk := v.chunk), |input|));
    }
  }

  lemma RunNothing(cfg: Config, s: State)
    ensures Run(cfg, s, "") == Undecided(s)
  {
  }

  lemma TouchContinues(cfg: Config, s: State, input: string)
    requires Inv(cfg, s) && input != ""
    ensures Continues(cfg, s, input, Touch(s), input) && Inv(cfg, Touch(s))
  {
    hide Run, HeadRun;
    TouchIsHarmless(cfg, s, input);
  }

  /** What parseMissingData has done before a decided message is finished. */
  ghost predicate Skips(cfg: Config, s: State, n: nat, rc: Tribool, ec: Error, t: State) {
    match s.phase
    case Start | Headers => rc == False && ec == MissingHeaderData && t == s
    case Chunks =>
      if s.chunk.phase.InChunk? && s.chunk.read < s.chunk.size && n <= s.chunk.size - s.chunk.read then
        rc == Indeterminate && t == CountContent(s.(chunk := ChunkAfter(cfg.cap, s.chunk, Dummy(n))), n)
      else rc == False && ec == MissingChunkData && t == s
    case Content =>
      if s.remaining < n then rc == False && ec == MissingTooMuchContent && t == s
      else
        && rc == (if s.remaining == n then True else Indeterminate)
        && t == CountContent(s.(remaining := s.remaining - n, msg :=
                               if s.contentRead + n <= cfg.cap then s.msg.(content := s.msg.content + Dummy(n)) else s.msg), n)
    case ContentNoLength => rc == Indeterminate && t == NoLengthAfter(cfg, s, Dummy(n))
    case End => rc == True && t == s
  }

  ghost predicate ReportsMissing(v: Verdict, rc: Tribool, ec: Error, t: State) {
    v == match rc
         case Indeterminate => Undecided(t)
         case True => Complete(t, "")
         case False => Failed(t, ec)
  }

  lemma ContentFacts(cfg: Config, s: State)
    requires Inv(cfg, s)
    ensures s.phase.Content? ==> ContentInv(cfg, s) && ContentInv(cfg, s.(msg := s.msg.(missing := true)))
  {
  }

  /** There is room in the buffer for what remains below the cap. */
  lemma ContentRoom(cfg: Config, s: State, n: nat)
    requires ContentInv(cfg, s)
    ensures s.remaining > 0 && (s.contentRead <= cfg.cap ==> |s.msg.content| == s.contentRead)
    ensures n <= s.remaining && s.contentRead + n <= cfg.cap ==> s.contentRead + n <= s.msg.bufferSize
  {
  }

  lemma ContentReady(cfg: Config, s: State)
    requires Inv(cfg, s) && s.phase.Content?
    ensures s.remaining > 0 && (s.contentRead <= cfg.cap ==> |s.msg.content| == s.contentRead)
    ensures Min(s.contentRead + s.remaining, cfg.cap) <= s.msg.bufferSize
  {
  }

  lemma SkipsIsMissingData(cfg: Config, s: State, n: nat, rc: Tribool, ec: Error, t: State)
    requires Inv(cfg, s) && Skips(cfg, s.(msg := s.msg.(missing := true)), n, rc, ec, t)
    ensures ReportsMissing(MissingData(cfg, s, n), rc, ec,
              match rc case True => Completed(cfg, t) case False => Rejected(t) case Indeterminate => t)
  {
  }

  /** One byte of the headers, with more to come. */
  lemma Eat(cfg: Config, h: Head, c: char, more: string) returns (h1: Head)
    requires HeadStep(cfg, h, c).HeadMore?
    ensures h1 == HeadStep(cfg, h, c).head
    ensures HeadRun(cfg, h, [c] + more) == HeadRun(cfg, h1, more)
  {
    h1 := HeadStep(cfg, h, c).head;
    assert ([c] + more)[1..] == more;
  }

  // --------------------------------------------- lines that are refused

  /** A part of the header block that is scanned as text: which characters may stand in it
      and which end it, how long it may be, and how the scan fails. */
  datatype Part = Part(max: nat, tokens: bool, ends: string, badChar: Error, tooLong: Error)
  {
    predicate Allows(c: char) { if tokens then IsToken(c) else !IsControl(c) }
  }

  function PartOf(phase: HeadPhase): Option<Part> {
    match phase
    case Method => Some(Part(METHOD_MAX, true, " ", MethodChar, MethodSize))
    case UriStem => Some(Part(RESOURCE_MAX, false, " ?\r\n", UriChar, UriSize))
    case UriQuery => Some(Part(QUERY_STRING_MAX, false, " ", QueryChar, QuerySize))
    case StatusMessage => Some(Part(STATUS_MESSAGE_MAX, false, "\r\n", StatusChar, StatusChar))
    case HeaderName => Some(Part(HEADER_NAME_MAX, true, ":", HeaderChar, HeaderNameSize))
    case HeaderValue => Some(Part(HEADER_VALUE_MAX, false, "\r\n", HeaderChar, HeaderValueSize))
    case _ => None
  }

  function TextOf(h: Head): string {
    match h.phase
    case Method => h.verb
    case UriStem => h.resource
    case UriQuery => h.query
    case StatusMessage => h.statusMessage
    case HeaderName => h.name
    case HeaderValue => h.value
    case _ => ""
  }

  /** The longest stretch of text that a part with this much room takes. */
  function Taken(part: Part, room: nat, text: string): (n: nat)
    ensures n <= |text| && n <= room
    decreases |text|
  {
    if text == "" || room == 0 || !part.Allows(text[0]) then 0 else 1 + Taken(part, room - 1, text[1..])
  }

  lemma {:induction false} TakenIsLongest(part: Part, room: nat, text: string)
    ensures var n := Taken(part, room, text);
            && n <= |text| && n <= room && (forall i | 0 <= i < n :: part.Allows(text[i]))
            && (n < |text| && n < room ==> !part.Allows(text[n]))
    decreases |text|
  {
    if text != "" && room > 0 && part.Allows(text[0]) {
      TakenIsLongest(part, room - 1, text[1..]);
      var n := Taken(part, room - 1, text[1..]);
      assert forall i | 1 <= i < n + 1 :: text[i] == text[1..][i - 1];
    }
  }

  /** A text up to what ends its part is taken exactly if all of it is allowed and fits, and
      otherwise refused at the first character that is not, for that reason. */
  lemma {:induction false} PartsFailExactlyWhen(cfg: Config, h: Head, text: string, more: string) returns (h1: Head)
    requires PartOf(h.phase).Some? && |TextOf(h)| <= PartOf(h.phase).value.max
    requires forall c <- text :: c !in PartOf(h.phase).value.ends
    ensures var part := PartOf(h.phase).value;
            var n := Taken(part, part.max - |TextOf(h)|, text);
            var v := HeadRun(cfg, h, text + more);
            if n == |text| then v == HeadRun(cfg, h1, more) && h1.phase == h.phase && TextOf(h1) == TextOf(h) + text
            else v.HeadBad? && v.error == if part.Allows(text[n]) then part.tooLong else part.badChar
    decreases |text|
  {
    hide HeadRun, HeadStep, PartOf, TextOf;
    h1 := h;
    if text == "" {
      assert text + more == more && TextOf(h) + text == TextOf(h);
    } else {
      var part := PartOf(h.phase).value;
      assert text + more == [text[0]] + (text[1..] + more) && text[0] in text;
      assert forall c <- text[1..] :: c in text;
      if |TextOf(h)| < part.max && part.Allows(text[0]) {
        TextGrows(cfg, h, text[0]);
        h1 := Eat(cfg, h, text[0], text[1..] + more);
        h1 := PartsFailExactlyWhen(cfg, h1, text[1..], more);
        assert TextOf(h) + [text[0]] + text[1..] == TextOf(h) + text;
      } else {
        TextStops(cfg, h, text[0], text[1..] + more);
      }
    }
  }

  lemma TextStops(cfg: Config, h: Head, c: char, more: string)
    requires PartOf(h.phase).Some? && c !in PartOf(h.phase).value.ends
    requires var part := PartOf(h.phase).value; |TextOf(h)| >= part.max || !part.Allows(c)
    ensures var part := PartOf(h.phase).value;
            var v := HeadRun(cfg, h, [c] + more);
            v.HeadBad? && v.error == if part.Allows(c) then part.tooLong else part.badChar
  {
    assert ([c] + more)[0] == c;
  }

  lemma TextGrows(cfg: Config, h: Head, c: char)
    requires PartOf(h.phase).Some?
    requires var part := PartOf(h.phase).value; |TextOf(h)| < part.max && part.Allows(c) && c !in part.ends
    ensures var r := HeadStep(cfg, h, c);
            r.HeadMore? && r.head.phase == h.phase && TextOf(r.head) == TextOf(h) + [c]
  {
  }

  /** White space before a header name is refused at the first character of the name, and
      without an error code if that character could be part of a name. */
  lemma {:induction false} SpaceBeforeNameFails(cfg: Config, h: Head, spaces: string, c: char, more: string)
    requires h.phase in {HeaderStart, HeaderWhitespace} && (h.phase.HeaderStart? ==> spaces != "")
    requires forall i | 0 <= i < |spaces| :: spaces[i] == ' ' || spaces[i] == '\t'
    ensures var v := HeadRun(cfg, h, spaces + ([c] + more));
            c !in {' ', '\t', '\r', '\n'} ==> v.HeadBad? && v.error == if IsToken(c) then NotSet else HeaderChar
    decreases |spaces|
  {
    var s := spaces + ([c] + more);
    if spaces == "" {
      assert s == [c] + more;
    } else {
      assert s[1..] == spaces[1..] + ([c] + more);
      SpaceBeforeNameFails(cfg, HeadStep(cfg, h, spaces[0]).head, spaces[1..], c, more);
    }
  }

  /** In leading white space exactly white space and line ends are let through. */
  lemma WhitespaceFailsExactlyWhen(cfg: Config, h: Head, c: char)
    requires h.phase.HeaderWhitespace?
    ensures HeadStep(cfg, h, c).HeadFailed? <==> c !in {'\r', '\n', '\t', ' '}
  {
  }

  /** When a request line ends behind the space that should introduce its version, the
      next line is read as if it were the rest of "HTTP/". */
  lemma NoVersionWantsT(cfg: Config, h: Head, c: char, d: char)
    requires cfg.isRequest && h.phase.VersionH? && (c == '\r' || c == '\n')
    ensures var r := HeadStep(cfg, h, c);
            && r.HeadMore? && r.head.major == 0
            && (HeadStep(cfg, r.head, d).HeadFailed? <==> d != 'T')
  {
  }
}
