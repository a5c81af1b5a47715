/** Properties of every run of the HTTP machine: independence of how the input is
    cut, the accounting of body bytes, and recovery from lost data. */
module HttpRuns {
  import opened HttpTypes
  import opened HttpMachine

  // ---------------------------------------------- independence of the cuts

  /** Reads one piece after another until a verdict is reached. */
  function Feed(cfg: Config, s: State, pieces: seq<string>): Verdict
    decreases |pieces|
  {
    if pieces == [] then Undecided(s)
    else
      match Run(cfg, s, pieces[0])
      case Undecided(s1) => Feed(cfg, s1, pieces[1..])
      case Complete(s1, rest) => Complete(s1, rest + Flatten(pieces[1..]))
      case Failed(s1, e) => Failed(s1, e)
  }

  /** Continues a verdict with more input. */
  function Then(cfg: Config, v: Verdict, more: string): Verdict {
    match v
    case Undecided(s) => Run(cfg, s, more)
    case Complete(s, rest) => Complete(s, rest + more)
    case Failed(s, e) => v
  }

  lemma {:induction false} RunConcat(cfg: Config, s: State, a: string, b: string)
    ensures Run(cfg, s, a + b) == Then(cfg, Run(cfg, s, a), b)
    decreases |a|
  {
    hide Step;
    if a == "" {
      assert a + b == b;
    } else {
      assert (a + b)[1..] == a[1..] + b;
      var r := Step(cfg, s, a[0]);
      if r.More? {
        RunConcat(cfg, r.state, a[1..], b);
      }
    }
  }

  /** However the input is cut, the outcome is that of the uncut input. */
  lemma {:induction false} FeedIsRun(cfg: Config, s: State, pieces: seq<string>)
    ensures Feed(cfg, s, pieces) == Run(cfg, s, Flatten(pieces))
    decreases |pieces|
  {
    hide Step;
    if pieces != [] {
      RunConcat(cfg, s, pieces[0], Flatten(pieces[1..]));
      var v := Run(cfg, s, pieces[0]);
      if v.Undecided? {
        FeedIsRun(cfg, v.state, pieces[1..]);
      }
    }
  }

  /** Two ways to cut the same input cannot be told apart. */
  lemma CutsAgree(cfg: Config, s: State, pieces: seq<string>, pieces': seq<string>)
    requires Flatten(pieces) == Flatten(pieces')
    ensures Feed(cfg, s, pieces) == Feed(cfg, s, pieces')
  {
    FeedIsRun(cfg, s, pieces);
    FeedIsRun(cfg, s, pieces');
  }

  lemma StepConsumesAtStart(cfg: Config, s: State, c: char)
    ensures s.phase.Start? && s.head.phase in {MethodStart, VersionH} ==> !Step(cfg, s, c).Done?
  {
    hide FinishHeaders, Completed, ChunkStep;
  }

  /** A completed run leaves a suffix of its input; unless the run began on a
      message that needed no more input, it has consumed something. */
  lemma {:induction false} RestIsSuffix(cfg: Config, s: State, input: string)
    requires Run(cfg, s, input).Complete?
    ensures |Run(cfg, s, input).rest| <= |input|
    ensures Run(cfg, s, input).rest == input[|input| - |Run(cfg, s, input).rest|..]
    ensures s.phase.Start? && s.head.phase in {MethodStart, VersionH} ==> |Run(cfg, s, input).rest| < |input|
    decreases |input|
  {
    hide Step;
    StepConsumesAtStart(cfg, s, input[0]);
    var r := Step(cfg, s, input[0]);
    if r.More? {
      RestIsSuffix(cfg, r.state, input[1..]);
    }
  }

  // ------------------------------------------------------ bulk consumption

  /** The part of data that still fits below cap after read bytes. */
  function Fitting(cap: nat, read: nat, data: string): string {
    if read < cap then data[..Min(|data|, cap - read)] else ""
  }

  function ContentAfter(cfg: Config, s: State, data: string): State
    requires |data| <= s.remaining
  {
    CountContent(s.(remaining := s.remaining - |data|,
                    msg := s.msg.(content := s.msg.content + Fitting(cfg.cap, s.contentRead, data))), |data|)
  }

  lemma StepContent(cfg: Config, s: State, c: char)
    requires s.phase.Content? && s == Touch(s) && s.remaining > 0
    ensures var t := ContentAfter(cfg, s, [c]);
            t == Touch(t) && Step(cfg, s, c) == if s.remaining == 1 then Done(Completed(cfg, t), true) else More(t)
  {
    hide Completed, HeadStep, FinishHeaders, ChunkStep;
    var m := if s.contentRead < cfg.cap then s.msg.(content := s.msg.content + [c]) else s.msg;
    assert ContentAfter(cfg, s, [c]).msg == m;
  }

  lemma ContentAfterStep(cfg: Config, s: State, data: string)
    requires 0 < |data| <= s.remaining
    ensures ContentAfter(cfg, ContentAfter(cfg, s, [data[0]]), data[1..]) == ContentAfter(cfg, s, data)
  {
    assert Fitting(cfg.cap, s.contentRead, data)
        == Fitting(cfg.cap, s.contentRead, [data[0]]) + Fitting(cfg.cap, s.contentRead + 1, data[1..]);
  }

  lemma {:induction false} RunContent(cfg: Config, s: State, data: string)
    requires s.phase.Content? && s == Touch(s) && 0 < |data| <= s.remaining
    ensures Run(cfg, s, data) ==
            (var t := ContentAfter(cfg, s, data);
             if |data| == s.remaining then Complete(Completed(cfg, t), "") else Undecided(t))
    decreases |data|
  {
    hide Step, Completed, Fitting;
    StepContent(cfg, s, data[0]);
    if |data| > 1 {
      RunContent(cfg, ContentAfter(cfg, s, [data[0]]), data[1..]);
      ContentAfterStep(cfg, s, data);
    } else {
      assert data == [data[0]];
      assert data[1..] == "";
    }
  }

  function CachedAll(cap: nat, cache: string, data: string): string {
    cache + Fitting(cap, |cache|, data)
  }

  lemma CachedNothing(cap: nat, cache: string)
    ensures CachedAll(cap, cache, "") == cache
  {
  }

  lemma CachedAllStep(cap: nat, cache: string, data: string)
    requires data != ""
    ensures CachedAll(cap, Cached(cap, cache, data[0]), data[1..]) == CachedAll(cap, cache, data)
  {
  }

  function NoLengthAfter(cfg: Config, s: State, data: string): State {
    CountContent(s.(chunk := s.chunk.(cache := CachedAll(cfg.cap, s.chunk.cache, data))), |data|)
  }

  lemma {:induction false} RunNoLength(cfg: Config, s: State, data: string)
    requires s.phase.ContentNoLength? && s == Touch(s)
    ensures Run(cfg, s, data) == Undecided(NoLengthAfter(cfg, s, data))
    decreases |data|
  {
    hide HeadStep, FinishHeaders, ChunkStep, Completed;
    if data == "" {
      assert s.chunk.cache + "" == s.chunk.cache;
    } else {
      CachedAllStep(cfg.cap, s.chunk.cache, data);
      RunNoLength(cfg, Step(cfg, s, data[0]).state, data[1..]);
    }
  }

  /** A chunk scanner after part of the current chunk's data. */
  function ChunkAfter(cap: nat, k: Chunk, data: string): Chunk
    requires |data| <= k.size - k.read
  {
    k.(cache := CachedAll(cap, k.cache, data), read := k.read + |data|,
       phase := if k.read + |data| == k.size then CrAfterChunk else InChunk)
  }

  lemma {:induction false} RunInChunk(cfg: Config, s: State, data: string)
    requires s.phase.Chunks? && s.chunk.phase.InChunk? && s == Touch(s)
    requires s.chunk.read < s.chunk.size && |data| <= s.chunk.size - s.chunk.read
    ensures Run(cfg, s, data)
         == Undecided(CountContent(s.(chunk := ChunkAfter(cfg.cap, s.chunk, data)), |data|))
    decreases |data|
  {
    hide HeadStep, FinishHeaders, Completed, StrToLong16;
    if data == "" {
      assert s.chunk.cache + "" == s.chunk.cache;
    } else {
      CachedAllStep(cfg.cap, s.chunk.cache, data);
      var s1 := Step(cfg, s, data[0]).state;
      if |data| > 1 {
        RunInChunk(cfg, s1, data[1..]);
      }
    }
  }

  // ------------------------------------------------------------- lost data

  /** HTTPParser::parseMissingData: n bytes of input are known to be lost. */
  function MissingData(cfg: Config, s0: State, n: nat): Verdict {
    var s := s0.(msg := s0.msg.(missing := true));
    match s.phase
    case Start | Headers => Failed(Rejected(s), MissingHeaderData)
    case Chunks =>
      var k := s.chunk;
      if k.phase.InChunk? && k.read < k.size && n <= k.size - k.read then
        Undecided(CountContent(s.(chunk := ChunkAfter(cfg.cap, k, Dummy(n))), n))
      else Failed(Rejected(s), MissingChunkData)
    case Content =>
      if s.remaining == 0 then Complete(Completed(cfg, s), "")
      else if s.remaining < n then Failed(Rejected(s), MissingTooMuchContent)
      else
        // a gap that reaches beyond the cap leaves the buffer as it is
        var m := if s.contentRead + n <= cfg.cap then s.msg.(content := s.msg.content + Dummy(n)) else s.msg;
        var t := CountContent(s.(remaining := s.remaining - n, msg := m), n);
        if t.remaining == 0 then Complete(Completed(cfg, t), "") else Undecided(t)
    case ContentNoLength => Undecided(NoLengthAfter(cfg, s, Dummy(n)))
    case End => Complete(Completed(cfg, s), "")
  }

  /** A state without the traces of lost packets; the content buffer counts only
      while the gap stayed below the cap. */
  function Unmarked(s: State, keepContent: bool): State {
    s.(msg := s.msg.(missing := false, dataAfterMissing := false, status := NoStatus,
                     content := if keepContent then s.msg.content else ""))
  }

  ghost predicate SameUnmarked(v: Verdict, w: Verdict, keepContent: bool) {
    match (v, w)
    case (Undecided(s), Undecided(t)) => Unmarked(s, keepContent) == Unmarked(t, keepContent)
    case (Complete(s, r), Complete(t, q)) => Unmarked(s, keepContent) == Unmarked(t, keepContent) && r == q
    case (Failed(s, e), Failed(t, f)) => Unmarked(s, keepContent) == Unmarked(t, keepContent) && e == f
    case _ => false
  }

  lemma TouchIsHarmless(cfg: Config, s: State, data: string)
    requires data != ""
    ensures Run(cfg, s, data) == Run(cfg, Touch(s), data)
  {
  }

  lemma CompletedUnmarked(cfg: Config, s: State, t: State, keepContent: bool)
    requires Unmarked(s, keepContent) == Unmarked(t, keepContent)
    ensures Unmarked(Completed(cfg, s), keepContent) == Unmarked(Completed(cfg, t), keepContent)
  {
  }

  /** Below the cap, or wholly beyond it, a gap leaves the bytes that were read. */
  predicate Within(cap: nat, read: nat, n: nat) { read + n <= cap || read >= cap }

  function LostContentState(cfg: Config, s: State, n: nat): State
    requires n <= s.remaining
  {
    var m := s.msg.(missing := true);
    CountContent(s.(remaining := s.remaining - n,
                    msg := if s.contentRead + n <= cfg.cap then m.(content := m.content + Dummy(n)) else m), n)
  }

  lemma ContentsCompare(cfg: Config, s: State, n: nat)
    requires n <= s.remaining
    ensures var (lost, read) := (LostContentState(cfg, s, n), ContentAfter(cfg, Touch(s), Dummy(n)));
            && Unmarked(lost, false) == Unmarked(read, false)
            && (Within(cfg.cap, s.contentRead, n) ==> lost.msg.content == read.msg.content)
            && (!Within(cfg.cap, s.contentRead, n) ==> |lost.msg.content| < |read.msg.content|)
  {
    assert s.msg.content + "" == s.msg.content;
    if s.contentRead + n <= cfg.cap {
      assert Fitting(cfg.cap, s.contentRead, Dummy(n)) == if s.contentRead < cfg.cap then Dummy(n) else "";
    }
  }

  lemma UnmarkedParts(s: State, t: State)
    ensures Unmarked(s, true) == Unmarked(t, true) <==>
            Unmarked(s, false) == Unmarked(t, false) && s.msg.content == t.msg.content
  {
  }

  lemma CompletedKeepsContent(cfg: Config, s: State)
    ensures Completed(cfg, s).msg.content == s.msg.content
  {
  }

  lemma LostContent(cfg: Config, s: State, n: nat)
    requires s.phase.Content? && 0 < n <= s.remaining
    ensures SameUnmarked(MissingData(cfg, s, n), Run(cfg, s, Dummy(n)), false)
    ensures SameUnmarked(MissingData(cfg, s, n), Run(cfg, s, Dummy(n)), true) <==> Within(cfg.cap, s.contentRead, n)
  {
    hide Run, Completed, Unmarked, Fitting;
    TouchIsHarmless(cfg, s, Dummy(n));
    RunContent(cfg, Touch(s), Dummy(n));
    var (lost, read) := (LostContentState(cfg, s, n), ContentAfter(cfg, Touch(s), Dummy(n)));
    ContentsCompare(cfg, s, n);
    UnmarkedParts(lost, read);
    CompletedUnmarked(cfg, lost, read, false);
    CompletedKeepsContent(cfg, lost);
    CompletedKeepsContent(cfg, read);
    UnmarkedParts(Completed(cfg, lost), Completed(cfg, read));
  }

  lemma LostInChunk(cfg: Config, s: State, n: nat)
    requires s.phase.Chunks? && n > 0 && !MissingData(cfg, s, n).Failed?
    ensures SameUnmarked(MissingData(cfg, s, n), Run(cfg, s, Dummy(n)), true)
  {
    hide Run, Completed, ChunkAfter;
    TouchIsHarmless(cfg, s, Dummy(n));
    RunInChunk(cfg, Touch(s), Dummy(n));
  }

  lemma LostWithoutLength(cfg: Config, s: State, n: nat)
    requires s.phase.ContentNoLength? && n > 0
    ensures SameUnmarked(MissingData(cfg, s, n), Run(cfg, s, Dummy(n)), true)
  {
    hide Run, Completed, CachedAll;
    TouchIsHarmless(cfg, s, Dummy(n));
    RunNoLength(cfg, Touch(s), Dummy(n));
  }

  lemma NothingLost(cfg: Config, s: State)
    requires Inv(cfg, s) && !s.phase.End? && !MissingData(cfg, s, 0).Failed?
    ensures SameUnmarked(MissingData(cfg, s, 0), Run(cfg, s, Dummy(0)), true)
  {
    hide Completed;
    assert Dummy(0) == "";
    assert s.msg.content + "" == s.msg.content;
    assert s.chunk.cache + "" == s.chunk.cache;
  }

  /** A gap that is accepted has the effect of reading that many dummy bytes. The
      content buffer is the same too, exactly unless the gap crosses the content cap. */
  lemma LostDataIsDummyData(cfg: Config, s: State, n: nat)
    requires Inv(cfg, s) && !s.phase.End?
    requires !MissingData(cfg, s, n).Failed?
    ensures SameUnmarked(MissingData(cfg, s, n), Run(cfg, s, Dummy(n)), false)
    ensures SameUnmarked(MissingData(cfg, s, n), Run(cfg, s, Dummy(n)), true) <==>
            (s.phase.Content? ==> Within(cfg.cap, s.contentRead, n))
  {
    hide Run, Completed, Unmarked;
    if n == 0 {
      NothingLost(cfg, s);
      UnmarkedWithout(MissingData(cfg, s, 0), Run(cfg, s, Dummy(0)));
    } else {
      match s.phase {
        case Chunks => LostInChunk(cfg, s, n);
        case Content => LostContent(cfg, s, n);
        case ContentNoLength => LostWithoutLength(cfg, s, n);
      }
      if !s.phase.Content? {
        UnmarkedWithout(MissingData(cfg, s, n), Run(cfg, s, Dummy(n)));
      }
    }
  }

  lemma UnmarkedWithout(v: Verdict, w: Verdict)
    requires SameUnmarked(v, w, true)
    ensures SameUnmarked(v, w, false)
  {
  }

  // ------------------------------------------------------------ accounting

  /** The length a Content-Length header announces. */
  function Declared(s: State): Option<nat> {
    var text := FindHeader(s.head.headers, "Content-Length");
    if text.None? then None else ContentLengthOf(text.value)
  }

  /** A Content-Length that counts and cannot be read. */
  predicate LengthRefused(headers: seq<Header>) {
    var text := FindHeader(headers, "Content-Length");
    !ChunkedCoding(headers) && text.Some? && ContentLengthOf(text.value).None?
  }

  ghost predicate Inv(cfg: Config, s: State) {
    && |s.chunk.cache| <= cfg.cap
    && (s.chunk.phase.InChunk? ==> s.chunk.read < s.chunk.size)
    && (s.phase.Start? || s.phase.Headers? ==> s.chunk.phase.SizeStart?)
    && (s.phase.Chunks? ==> ChunkedCoding(s.head.headers))
    && (s.phase.ContentNoLength? ==> FindHeader(s.head.headers, "Content-Length") == None)
    && (s.phase.Content? ==> ContentInv(cfg, s))
    && (s.phase.End? ==>
          && |s.msg.content| <= s.msg.contentLength == s.msg.bufferSize <= cfg.cap
          && (LengthRefused(s.head.headers) ==> s.msg.bufferSize == 0)
          && (!s.msg.missing && !cfg.headersOnly ==> |s.msg.content| == s.msg.contentLength))
  }

  /** What is read and what remains add up to the declared length, and every byte
      below the cap has been stored, unless a gap jumped over the cap. */
  ghost predicate ContentInv(cfg: Config, s: State) {
    && s.remaining > 0
    && Declared(s) == Some(s.contentRead + s.remaining)
    && s.msg.contentLength == s.msg.bufferSize == Min(s.contentRead + s.remaining, cfg.cap)
    && (s.contentRead <= cfg.cap ==> |s.msg.content| == s.contentRead)
    && |s.msg.content| <= Min(s.contentRead, cfg.cap)
    && (!s.msg.missing ==> |s.msg.content| == Min(s.contentRead, cfg.cap))
  }

  /** However far a message is, its headers may be taken to end where they are. */
  lemma InvFinish(cfg: Config, s: State)
    requires Inv(cfg, s)
    ensures Inv(cfg, FinishHeaders(cfg, s).state)
  {
    hide ChunkedCoding, FindHeader, ContentLengthOf, LengthImplied;
  }

  lemma InvHeaders(cfg: Config, s: State)
    requires Inv(cfg, s) && s.phase.Headers? && FinishHeaders(cfg, s).BodyFollows?
    ensures Inv(cfg, FinishHeaders(cfg, s).state)
    ensures FinishHeaders(cfg, s).state.phase in {Chunks, Content, ContentNoLength}
  {
    InvFinish(cfg, s);
    InvHeadersPhase(cfg, s);
  }

  lemma InvCompletedHeaders(cfg: Config, s: State)
    requires Inv(cfg, s) && s.phase.Headers? && FinishHeaders(cfg, s).NoMoreBody?
    ensures Inv(cfg, Completed(cfg, FinishHeaders(cfg, s).state))
  {
    hide ChunkedCoding, FindHeader, ContentLengthOf, LengthImplied;
  }

  lemma InvBodyStep(cfg: Config, s: State, c: char)
    requires Inv(cfg, s) && !s.phase.Start? && !s.phase.Headers?
    ensures Inv(cfg, BodyStep(cfg, s, c).state)
  {
    hide StrToLong16, FindHeader, ContentLengthOf, ChunkedCoding;
  }

  lemma InvStep(cfg: Config, s: State, c: char)
    requires Inv(cfg, s)
    ensures Inv(cfg, Step(cfg, s, c).state)
  {
    hide HeadStep, FinishHeaders, BodyStep, Completed;
    var t := Touch(s);
    if t.phase.Start? || t.phase.Headers? {
      var r := HeadStep(cfg, t.head, c);
      if r.HeadDone? {
        var s1 := Count(t.(phase := Headers, head := r.head), if r.consumed then 1 else 0);
        InvFinish(cfg, s1);
        if FinishHeaders(cfg, s1).BodyFollows? {
          InvHeaders(cfg, s1);
          InvBodyStep(cfg, FinishHeaders(cfg, s1).state, c);
        } else if FinishHeaders(cfg, s1).NoMoreBody? {
          InvCompletedHeaders(cfg, s1);
        } else {
          InvRejected(cfg, FinishHeaders(cfg, s1).state);
        }
      }
    } else {
      InvBodyStep(cfg, t, c);
    }
  }

  lemma InvRejected(cfg: Config, s: State)
    requires Inv(cfg, s)
    ensures Inv(cfg, Rejected(s))
  {
  }

  lemma InitInv(cfg: Config, requestMethod: string)
    ensures Inv(cfg, Init(cfg, requestMethod))
  {
  }

  /** What reaches a parser: bytes, or word that some bytes were lost. */
  datatype Input = Bytes(data: string) | Gap(len: nat)

  function InputLength(inputs: seq<Input>): nat {
    if inputs == [] then 0
    else (match inputs[0] case Bytes(d) => |d| case Gap(n) => n) + InputLength(inputs[1..])
  }

  function React(cfg: Config, s: State, i: Input): Verdict {
    match i
    case Bytes(d) => Run(cfg, s, d)
    case Gap(n) => MissingData(cfg, s, n)
  }

  /** Consumes inputs until a verdict is reached. */
  function Consume(cfg: Config, s: State, inputs: seq<Input>): Verdict
    decreases |inputs|
  {
    if inputs == [] then Undecided(s)
    else
      var v := React(cfg, s, inputs[0]);
      if v.Undecided? then Consume(cfg, v.state, inputs[1..]) else v
  }

  lemma {:induction false} InvRun(cfg: Config, s: State, data: string)
    requires Inv(cfg, s)
    ensures Inv(cfg, Run(cfg, s, data).state)
    decreases |data|
  {
    hide Step, Inv;
    if data != "" {
      InvStep(cfg, s, data[0]);
      var r := Step(cfg, s, data[0]);
      if r.More? {
        InvRun(cfg, r.state, data[1..]);
      }
    }
  }

  lemma InvMissing(cfg: Config, s: State, n: nat)
    requires Inv(cfg, s)
    ensures Inv(cfg, MissingData(cfg, s, n).state)
  {
  }

  /** The accounting holds in every state any mix of bytes and gaps leads to. */
  lemma {:induction false} InvConsume(cfg: Config, s: State, inputs: seq<Input>)
    requires Inv(cfg, s)
    ensures Inv(cfg, Consume(cfg, s, inputs).state)
    decreases |inputs|
  {
    if inputs != [] {
      match inputs[0] {
        case Bytes(d) => InvRun(cfg, s, d);
        case Gap(n) => InvMissing(cfg, s, n);
      }
      var v := React(cfg, s, inputs[0]);
      if v.Undecided? {
        InvConsume(cfg, v.state, inputs[1..]);
      }
    }
  }

  lemma HeadersKeepCount(cfg: Config, s: State)
    ensures FinishHeaders(cfg, s).state.totalRead == s.totalRead
  {
  }

  lemma StepCounts(cfg: Config, s: State, c: char)
    ensures match Step(cfg, s, c)
            case More(t) => t.totalRead == s.totalRead + 1
            case Done(t, consumed) => t.totalRead == s.totalRead + (if consumed then 1 else 0)
            case Fail(_, _) => true
  {
    hide HeadStep, FinishHeaders, BodyStep;
    var t := Touch(s);
    if t.phase.Start? || t.phase.Headers? {
      var r := HeadStep(cfg, t.head, c);
      if r.HeadDone? {
        var s1 := Count(t.(phase := Headers, head := r.head), if r.consumed then 1 else 0);
        HeadersKeepCount(cfg, s1);
        InvHeadersPhase(cfg, s1);
        if FinishHeaders(cfg, s1).BodyFollows? && !r.consumed {
          BodyStepCounts(cfg, FinishHeaders(cfg, s1).state, c);
        }
      }
    } else {
      BodyStepCounts(cfg, t, c);
    }
  }

  lemma InvHeadersPhase(cfg: Config, s: State)
    requires s.phase.Headers?
    ensures FinishHeaders(cfg, s).BodyFollows? ==> FinishHeaders(cfg, s).state.phase in {Chunks, Content, ContentNoLength}
  {
  }

  lemma BodyStepCounts(cfg: Config, s: State, c: char)
    requires !s.phase.Start? && !s.phase.Headers?
    ensures match BodyStep(cfg, s, c)
            case More(t) => t.totalRead == s.totalRead + 1
            case Done(t, consumed) => t.totalRead == s.totalRead + (if consumed then 1 else 0)
            case Fail(_, _) => true
  {
  }

  /** Every byte is counted once: an undecided run has consumed all of its input,
      a completed one all but the rest it reports. */
  lemma {:induction false} RunCounts(cfg: Config, s: State, data: string)
    ensures match Run(cfg, s, data)
            case Undecided(t) => t.totalRead == s.totalRead + |data|
            case Complete(t, rest) => t.totalRead + |rest| == s.totalRead + |data|
            case Failed(_, _) => true
    decreases |data|
  {
    hide Step;
    if data != "" {
      StepCounts(cfg, s, data[0]);
      var r := Step(cfg, s, data[0]);
      if r.More? {
        RunCounts(cfg, r.state, data[1..]);
      }
    }
  }

  /** Wherever a length-counted body is cut short, finish reports as many bytes as
      were read, up to the cap; without lost packets all of them are there. */
  lemma FinishAnywhere(cfg: Config, requestMethod: string, inputs: seq<Input>)
    requires var v := Consume(cfg, Init(cfg, requestMethod), inputs); v.Undecided? && v.state.phase.Content?
    ensures var s := Consume(cfg, Init(cfg, requestMethod), inputs).state;
            var m := Finish(cfg, s);
            && m.contentLength == Min(s.contentRead, cfg.cap) <= m.bufferSize
            && !m.isValid
            && (!m.missing ==> |m.content| == m.contentLength && m.status == Truncated)
  {
    InitInv(cfg, requestMethod);
    InvConsume(cfg, Init(cfg, requestMethod), inputs);
  }
}
