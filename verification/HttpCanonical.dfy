/** Messages as HTTPMessage and HTTPWriter print them, and the proof that the parser
    reads them back: header block, body with a length, body in chunks. */
module HttpCanonical {
  import opened HttpTypes
  import opened HttpMachine
  import opened HttpRuns
  import opened HttpScans
  import opened HttpParser
  import opened HttpReader

  const CRLF := "\r\n"

  // ------------------------------------------------------------- printing

  function PrintHeaders(headers: seq<Header>): string {
    if headers == [] then CRLF
    else headers[0].0 + (": " + (headers[0].1 + (CRLF + PrintHeaders(headers[1..]))))
  }

  function PrintChunk(data: string): string {
    PrintHex(|data|) + (CRLF + (data + CRLF))
  }

  /** Non-empty chunks, then the zero-byte chunk that ends the body. */
  function PrintChunks(chunks: seq<string>): string {
    if chunks == [] then "0\r\n\r\n" else PrintChunk(chunks[0]) + PrintChunks(chunks[1..])
  }

  datatype Body = NoBody | Sized(data: string) | Chunked(chunks: seq<string>)
  {
    function Framing(): seq<Header> {
      match this
      case NoBody => []
      case Sized(data) => [("Content-Length", PrintDec(|data|))]
      case Chunked(_) => [("Transfer-Encoding", "chunked")]
    }

    function Print(): string {
      match this
      case NoBody => ""
      case Sized(data) => data
      case Chunked(chunks) => PrintChunks(chunks)
    }

    function Data(): string {
      match this
      case NoBody => ""
      case Sized(data) => data
      case Chunked(chunks) => Flatten(chunks)
    }

    ghost predicate Valid() {
      match this
      case NoBody => true
      case Sized(data) => |data| < SIZE_LIMIT
      case Chunked(chunks) => forall i | 0 <= i < |chunks| :: 0 < |chunks[i]| <= LONG_MAX
    }
  }

  function PrintVersion(major: nat, minor: nat): string {
    "HTTP/" + (PrintDec(major) + ("." + PrintDec(minor)))
  }

  datatype Request = Request(verb: string, resource: string, query: string, major: nat, minor: nat,
                             headers: seq<Header>, body: Body)
  {
    function Print(): string {
      PrintLine() + (PrintHeaders(headers + body.Framing()) + body.Print())
    }

    function PrintLine(): string {
      verb + (" " + (resource + ((if query == "" then "" else "?" + query) + (" " + (PrintVersion(major, minor) + CRLF)))))
    }
  }

  // ------------------------------------------------------ what may be sent

  ghost predicate ValidName(name: string) {
    0 < |name| <= HEADER_NAME_MAX && forall c <- name :: IsToken(c)
  }

  ghost predicate ValidValue(value: string) {
    |value| <= HEADER_VALUE_MAX && forall c <- value :: !IsControl(c)
  }

  ghost predicate ValidHeaders(headers: seq<Header>) {
    forall i | 0 <= i < |headers| :: ValidName(headers[i].0) && ValidValue(headers[i].1)
  }

  /** Headers other than those that announce a body. */
  ghost predicate PlainHeaders(headers: seq<Header>) {
    && ValidHeaders(headers)
    && forall h <- headers :: !SameName(h.0, "Content-Length") && !SameName(h.0, "Transfer-Encoding")
  }

  ghost predicate Canonical(r: Request) {
    && 0 < |r.verb| <= METHOD_MAX && (forall c <- r.verb :: IsToken(c))
    && |r.resource| <= RESOURCE_MAX && (forall c <- r.resource :: !IsControl(c) && c != ' ' && c != '?')
    && |r.query| <= QUERY_STRING_MAX && (forall c <- r.query :: !IsControl(c) && c != ' ')
    && r.major < VERSION_LIMIT && r.minor < VERSION_LIMIT
    && PlainHeaders(r.headers) && r.body.Valid()
  }

  /** Version and status numbers are held in 16 bits. */
  const VERSION_LIMIT := 0x1_0000

  // ------------------------------------------------- reading headers back

  /** Everything the first line of a message determines. */
  ghost predicate SameLine(h: Head, h': Head) {
    && h.verb == h'.verb && h.resource == h'.resource && h.query == h'.query
    && h.statusCode == h'.statusCode && h.statusMessage == h'.statusMessage
    && h.major == h'.major && h.minor == h'.minor
  }

  lemma {:induction false} ReadVerb(cfg: Config, h: Head, text: string, more: string) returns (h1: Head)
    requires h.phase.Method? && |h.verb| + |text| <= METHOD_MAX && forall c <- text :: IsToken(c)
    ensures HeadRun(cfg, h, text + more) == HeadRun(cfg, h1, more)
    ensures h1 == h.(verb := h.verb + text, raw := h1.raw)
    decreases |text|
  {
    hide HeadRun;
    if text == "" {
      assert text + more == more;
      h1 := h;
    } else {
      assert text + more == [text[0]] + (text[1..] + more);
      h1 := Eat(cfg, h, text[0], text[1..] + more);
      h1 := ReadVerb(cfg, h1, text[1..], more);
    }
  }

  lemma {:induction false} ReadResource(cfg: Config, h: Head, text: string, more: string) returns (h1: Head)
    requires h.phase.UriStem? && |h.resource| + |text| <= RESOURCE_MAX
    requires forall c <- text :: !IsControl(c) && c != ' ' && c != '?'
    ensures HeadRun(cfg, h, text + more) == HeadRun(cfg, h1, more)
    ensures h1 == h.(resource := h.resource + text, raw := h1.raw)
    decreases |text|
  {
    hide HeadRun;
    if text == "" {
      assert text + more == more;
      h1 := h;
    } else {
      assert text + more == [text[0]] + (text[1..] + more);
      h1 := Eat(cfg, h, text[0], text[1..] + more);
      h1 := ReadResource(cfg, h1, text[1..], more);
    }
  }

  lemma {:induction false} ReadQuery(cfg: Config, h: Head, text: string, more: string) returns (h1: Head)
    requires h.phase.UriQuery? && |h.query| + |text| <= QUERY_STRING_MAX
    requires forall c <- text :: !IsControl(c) && c != ' '
    ensures HeadRun(cfg, h, text + more) == HeadRun(cfg, h1, more)
    ensures h1 == h.(query := h.query + text, raw := h1.raw)
    decreases |text|
  {
    hide HeadRun;
    if text == "" {
      assert text + more == more;
      h1 := h;
    } else {
      assert text + more == [text[0]] + (text[1..] + more);
      h1 := Eat(cfg, h, text[0], text[1..] + more);
      h1 := ReadQuery(cfg, h1, text[1..], more);
    }
  }

  lemma {:induction false} ReadName(cfg: Config, h: Head, text: string, more: string) returns (h1: Head)
    requires h.phase.HeaderName? && |h.name| + |text| <= HEADER_NAME_MAX && forall c <- text :: IsToken(c)
    ensures HeadRun(cfg, h, text + more) == HeadRun(cfg, h1, more)
    ensures h1 == h.(name := h.name + text, raw := h1.raw)
    decreases |text|
  {
    hide HeadRun;
    if text == "" {
      assert text + more == more;
      h1 := h;
    } else {
      assert text + more == [text[0]] + (text[1..] + more);
      assert IsToken(text[0]);
      h1 := Eat(cfg, h, text[0], text[1..] + more);
      h1 := ReadName(cfg, h1, text[1..], more);
    }
  }

  lemma {:induction false} ReadValue(cfg: Config, h: Head, text: string, more: string) returns (h1: Head)
    requires h.phase.HeaderValue? && |h.value| + |text| <= HEADER_VALUE_MAX && forall c <- text :: !IsControl(c)
    ensures HeadRun(cfg, h, text + more) == HeadRun(cfg, h1, more)
    ensures h1 == h.(value := h.value + text, raw := h1.raw)
    decreases |text|
  {
    hide HeadRun;
    if text == "" {
      assert text + more == more;
      h1 := h;
    } else {
      assert text + more == [text[0]] + (text[1..] + more);
      h1 := Eat(cfg, h, text[0], text[1..] + more);
      h1 := ReadValue(cfg, h1, text[1..], more);
    }
  }

  /** The two bytes that end a line. */
  lemma EatCrlf(cfg: Config, h: Head, more: string) returns (h1: Head)
    requires (h.phase.Minor? && cfg.isRequest) || h.phase.HeaderValue? || h.phase.StatusMessage?
    ensures HeadRun(cfg, h, CRLF + more) == HeadRun(cfg, h1, more)
    ensures h1.phase.HeaderStart? && SameLine(h, h1)
    ensures h1.headers == if h.phase.HeaderValue? then h.headers + [(h.name, h.value)] else h.headers
  {
    hide HeadRun;
    assert CRLF + more == ['\r'] + (['\n'] + more);
    h1 := Eat(cfg, h, '\r', ['\n'] + more);
    h1 := Eat(cfg, h1, '\n', more);
  }

  lemma NameStarts(cfg: Config, h: Head, c: char)
    requires h.phase in {HeaderStart, ExpectingNewline, ExpectingCr} && IsToken(c)
    ensures var r := HeadStep(cfg, h, c);
            r.HeadMore? && r.head == h.(phase := HeaderName, name := [c], raw := r.head.raw)
  {
  }

  lemma ReadWholeName(cfg: Config, h: Head, name: string, more: string) returns (h1: Head)
    requires h.phase in {HeaderStart, ExpectingNewline, ExpectingCr} && ValidName(name)
    ensures HeadRun(cfg, h, name + more) == HeadRun(cfg, h1, more)
    ensures h1 == h.(phase := HeaderName, name := name, raw := h1.raw)
  {
    hide HeadRun;
    assert name + more == [name[0]] + (name[1..] + more);
    assert IsToken(name[0]) && forall c <- name[1..] :: c in name;
    NameStarts(cfg, h, name[0]);
    h1 := Eat(cfg, h, name[0], name[1..] + more);
    h1 := ReadName(cfg, h1, name[1..], more);
    assert [name[0]] + name[1..] == name;
  }

  lemma ReadHeader(cfg: Config, h: Head, name: string, value: string, more: string) returns (h1: Head)
    requires h.phase.HeaderStart? && ValidName(name) && ValidValue(value)
    ensures HeadRun(cfg, h, name + (": " + (value + (CRLF + more)))) == HeadRun(cfg, h1, more)
    ensures h1.phase.HeaderStart? && SameLine(h, h1) && h1.headers == h.headers + [(name, value)]
  {
    hide HeadRun, ValidName;
    var more1 := CRLF + more;
    h1 := ReadWholeName(cfg, h, name, ": " + (value + more1));
    assert ": " + (value + more1) == [':'] + ([' '] + (value + more1));
    h1 := Eat(cfg, h1, ':', [' '] + (value + more1));
    h1 := Eat(cfg, h1, ' ', value + more1);
    h1 := ReadValue(cfg, h1, value, more1);
    assert h1.value == value;
    h1 := EatCrlf(cfg, h1, more);
  }

  lemma EatFinalCrlf(cfg: Config, h: Head, rest: string) returns (h1: Head)
    requires h.phase.HeaderStart?
    ensures HeadRun(cfg, h, CRLF + rest) == HeadComplete(h1, rest)
    ensures SameLine(h, h1) && h1.headers == h.headers
  {
    assert CRLF + rest == ['\r'] + (['\n'] + rest);
    h1 := Eat(cfg, h, '\r', ['\n'] + rest);
    assert (['\n'] + rest)[1..] == rest;
    h1 := HeadStep(cfg, h1, '\n').head;
  }

  lemma PrintedHeader(headers: seq<Header>, rest: string)
    requires headers != []
    ensures PrintHeaders(headers) + rest ==
            headers[0].0 + (": " + (headers[0].1 + (CRLF + (PrintHeaders(headers[1..]) + rest))))
  {
  }

  /** A printed header block is read back header by header, up to its last byte. */
  lemma {:induction false} ReadHeaders(cfg: Config, h: Head, headers: seq<Header>, rest: string) returns (h1: Head)
    requires h.phase.HeaderStart? && ValidHeaders(headers)
    ensures HeadRun(cfg, h, PrintHeaders(headers) + rest) == HeadComplete(h1, rest)
    ensures SameLine(h, h1) && h1.headers == h.headers + headers
    decreases |headers|
  {
    hide HeadRun;
    if headers == [] {
      h1 := EatFinalCrlf(cfg, h, rest);
    } else {
      hide PrintHeaders, ValidName, ValidValue;
      var more := PrintHeaders(headers[1..]) + rest;
      var (name, value) := headers[0];
      PrintedHeader(headers, rest);
      h1 := ReadHeader(cfg, h, name, value, more);
      h1 := ReadHeaders(cfg, h1, headers[1..], rest);
      assert h.headers + headers == h.headers + [headers[0]] + headers[1..];
    }
  }

  lemma ReadHttp(cfg: Config, h: Head, more: string) returns (h1: Head)
    requires h.phase.VersionH?
    ensures HeadRun(cfg, h, "HTTP/" + more) == HeadRun(cfg, h1, more)
    ensures h1 == h.(phase := MajorStart, raw := h1.raw)
  {
    hide HeadRun;
    assert "HTTP/" + more == ['H'] + (['T'] + (['T'] + (['P'] + (['/'] + more))));
    h1 := Eat(cfg, h, 'H', ['T'] + (['T'] + (['P'] + (['/'] + more))));
    h1 := Eat(cfg, h1, 'T', ['T'] + (['P'] + (['/'] + more)));
    h1 := Eat(cfg, h1, 'T', ['P'] + (['/'] + more));
    h1 := Eat(cfg, h1, 'P', ['/'] + more);
    h1 := Eat(cfg, h1, '/', more);
  }

  /** Digits taken in one by one, as the parser does. */
  function TakeDigits(n: nat, digits: string): nat
    requires forall c <- digits :: IsDigit(c)
    decreases |digits|
  {
    if digits == "" then n else TakeDigits((n * 10 + DigitValue(digits[0])) % VERSION_LIMIT, digits[1..])
  }

  lemma {:induction false} TakenDigitsAreTheNumber(before: string, digits: string)
    requires (forall c <- before :: IsDigit(c)) && forall c <- digits :: IsDigit(c)
    ensures (forall c <- before + digits :: IsDigit(c)) &&
            TakeDigits(DecValue(before) % VERSION_LIMIT, digits) == DecValue(before + digits) % VERSION_LIMIT
    decreases |digits|
  {
    if digits == "" {
      assert before + digits == before;
    } else {
      var next := before + [digits[0]];
      assert before + digits == next + digits[1..];
      assert next[..|next| - 1] == before;
      TakenDigitsAreTheNumber(next, digits[1..]);
      assert DecValue(next) == 10 * DecValue(before) + DigitValue(digits[0]);
      ScaledRemainder(DecValue(before), DigitValue(digits[0]));
    }
  }

  lemma ScaledRemainder(n: nat, d: nat)
    ensures (n % VERSION_LIMIT * 10 + d) % VERSION_LIMIT == (10 * n + d) % VERSION_LIMIT
  {
    var (q, x) := (n / VERSION_LIMIT, n % VERSION_LIMIT * 10 + d);
    assert 10 * n + d == VERSION_LIMIT * (10 * q) + x;
    assert 10 * n + d == VERSION_LIMIT * (10 * q + x / VERSION_LIMIT) + x % VERSION_LIMIT;
  }

  lemma OneDigit(c: char)
    requires IsDigit(c)
    ensures DecValue([c]) == DigitValue(c)
  {
    assert [c][..0] == [];
  }

  /** A printed number, of which the first digit is read on its own. */
  lemma PrintedDigits(n: nat)
    ensures var text := PrintDec(n);
            && IsDigit(text[0]) && (forall c <- text[1..] :: IsDigit(c))
            && TakeDigits(DigitValue(text[0]), text[1..]) == n % VERSION_LIMIT
  {
    hide PrintDec, TakeDigits, DecValue;
    var text := PrintDec(n);
    var (first, others) := ([text[0]], text[1..]);
    assert text == first + others && text[0] in text;
    assert forall c <- others :: c in text;
    OneDigit(text[0]);
    TakenDigitsAreTheNumber(first, others);
    DecRoundTrip(n);
    assert DigitValue(text[0]) % VERSION_LIMIT == DigitValue(text[0]);
  }

  lemma {:induction false} ReadMajorDigits(cfg: Config, h: Head, digits: string, more: string) returns (h1: Head)
    requires h.phase.Major? && forall c <- digits :: IsDigit(c)
    ensures HeadRun(cfg, h, digits + more) == HeadRun(cfg, h1, more)
    ensures h1 == h.(major := TakeDigits(h.major, digits), raw := h1.raw)
    decreases |digits|
  {
    hide HeadRun;
    if digits == "" {
      assert digits + more == more;
      h1 := h;
    } else {
      assert digits + more == [digits[0]] + (digits[1..] + more);
      assert IsDigit(digits[0]);
      h1 := Eat(cfg, h, digits[0], digits[1..] + more);
      h1 := ReadMajorDigits(cfg, h1, digits[1..], more);
    }
  }

  lemma {:induction false} ReadMinorDigits(cfg: Config, h: Head, digits: string, more: string) returns (h1: Head)
    requires h.phase.Minor? && forall c <- digits :: IsDigit(c)
    ensures HeadRun(cfg, h, digits + more) == HeadRun(cfg, h1, more)
    ensures h1 == h.(minor := TakeDigits(h.minor, digits), raw := h1.raw)
    decreases |digits|
  {
    hide HeadRun;
    if digits == "" {
      assert digits + more == more;
      h1 := h;
    } else {
      assert digits + more == [digits[0]] + (digits[1..] + more);
      assert IsDigit(digits[0]);
      h1 := Eat(cfg, h, digits[0], digits[1..] + more);
      h1 := ReadMinorDigits(cfg, h1, digits[1..], more);
    }
  }

  /** The version, which ends the first line of a request and begins that of a response. */
  lemma ReadVersion(cfg: Config, h: Head, major: nat, minor: nat, more: string) returns (h1: Head)
    requires h.phase.VersionH?
    ensures HeadRun(cfg, h, PrintVersion(major, minor) + more) == HeadRun(cfg, h1, more)
    ensures h1 == h.(phase := Minor, major := major % VERSION_LIMIT, minor := minor % VERSION_LIMIT, raw := h1.raw)
  {
    hide HeadRun, PrintDec, TakeDigits;
    var (a, b) := (PrintDec(major), PrintDec(minor));
    PrintedDigits(major);
    PrintedDigits(minor);
    var m1 := b + more;
    var m2 := a + ("." + m1);
    assert PrintVersion(major, minor) + more == "HTTP/" + m2;
    h1 := ReadHttp(cfg, h, m2);
    assert m2 == [a[0]] + (a[1..] + ("." + m1));
    h1 := Eat(cfg, h1, a[0], a[1..] + ("." + m1));
    h1 := ReadMajorDigits(cfg, h1, a[1..], "." + m1);
    assert "." + m1 == ['.'] + m1;
    h1 := Eat(cfg, h1, '.', m1);
    assert m1 == [b[0]] + (b[1..] + more);
    h1 := Eat(cfg, h1, b[0], b[1..] + more);
    h1 := ReadMinorDigits(cfg, h1, b[1..], more);
  }

  lemma RequestLine(r: Request, more: string)
    ensures r.PrintLine() + more ==
            r.verb + (" " + (r.resource + ((if r.query == "" then "" else "?" + r.query)
                      + (" " + (PrintVersion(r.major, r.minor) + (CRLF + more))))))
  {
    hide PrintVersion;
    var a := (if r.query == "" then "" else "?" + r.query);
    var v := " " + (PrintVersion(r.major, r.minor) + CRLF);
    assert v + more == " " + (PrintVersion(r.major, r.minor) + (CRLF + more));
    assert a + v + more == a + (v + more);
    assert r.resource + (a + v) + more == r.resource + (a + v + more);
    assert " " + (r.resource + (a + v)) + more == " " + (r.resource + (a + v) + more);
  }

  /** A printed request line is read back. */
  lemma ReadTarget(cfg: Config, h: Head, r: Request, m3: string) returns (h1: Head)
    requires Canonical(r) && h == InitHead(true).(raw := h.raw)
    ensures var m2 := (if r.query == "" then "" else "?" + r.query) + m3;
            HeadRun(cfg, h, r.verb + (" " + (r.resource + m2))) == HeadRun(cfg, h1, m3)
    ensures h1 == InitHead(true).(phase := h1.phase, verb := r.verb, resource := r.resource, query := r.query, raw := h1.raw)
    ensures h1.phase == if r.query == "" then UriStem else UriQuery
  {
    hide HeadRun, PlainHeaders;
    var m2 := (if r.query == "" then "" else "?" + r.query) + m3;
    var m1 := r.resource + m2;
    assert r.verb + (" " + m1) == [r.verb[0]] + (r.verb[1..] + (" " + m1));
    h1 := Eat(cfg, h, r.verb[0], r.verb[1..] + (" " + m1));
    h1 := ReadVerb(cfg, h1, r.verb[1..], " " + m1);
    assert h1.verb == r.verb;
    h1 := Eat(cfg, h1, ' ', m1);
    h1 := ReadResource(cfg, h1, r.resource, m2);
    assert h1.resource == r.resource;
    if r.query == "" {
      assert m2 == m3;
    } else {
      assert m2 == ['?'] + (r.query + m3);
      h1 := Eat(cfg, h1, '?', r.query + m3);
      h1 := ReadQuery(cfg, h1, r.query, m3);
      assert h1.query == r.query;
    }
  }

  lemma ReadRequestLine(cfg: Config, r: Request, more: string) returns (h1: Head)
    requires Canonical(r) && cfg.isRequest
    ensures HeadRun(cfg, InitHead(true), r.PrintLine() + more) == HeadRun(cfg, h1, more)
    ensures h1.phase.HeaderStart? && h1.headers == [] && h1.major == r.major && h1.minor == r.minor
    ensures h1.verb == r.verb && h1.resource == r.resource && h1.query == r.query
  {
    hide HeadRun, PlainHeaders, PrintVersion;
    var m4 := PrintVersion(r.major, r.minor) + (CRLF + more);
    RequestLine(r, more);
    h1 := ReadTarget(cfg, InitHead(true), r, " " + m4);
    assert " " + m4 == [' '] + m4;
    h1 := Eat(cfg, h1, ' ', m4);
    h1 := ReadVersion(cfg, h1, r.major, r.minor, CRLF + more);
    h1 := EatCrlf(cfg, h1, more);
  }

  // -------------------------------------------------- reading chunks back

  lemma EatChunkByte(cap: nat, k: Chunk, c: char, more: string) returns (k1: Chunk)
    requires ChunkStep(cap, k, c).ChunkMore?
    ensures k1 == ChunkStep(cap, k, c).chunk
    ensures ChunkRun(cap, k, [c] + more) == ChunkRun(cap, k1, more)
  {
    k1 := ChunkStep(cap, k, c).chunk;
    assert ([c] + more)[1..] == more;
  }

  lemma {:induction false} ReadSizeDigits(cap: nat, k: Chunk, text: string, more: string) returns (k1: Chunk)
    requires k.phase.Size? && forall c <- text :: IsHexDigit(c)
    ensures ChunkRun(cap, k, text + more) == ChunkRun(cap, k1, more)
    ensures k1 == k.(sizeText := k.sizeText + text)
    decreases |text|
  {
    hide ChunkRun;
    if text == "" {
      assert text + more == more;
      k1 := k;
      assert k.sizeText + "" == k.sizeText;
    } else {
      assert text + more == [text[0]] + (text[1..] + more);
      assert IsHexDigit(text[0]);
      k1 := EatChunkByte(cap, k, text[0], text[1..] + more);
      k1 := ReadSizeDigits(cap, k1, text[1..], more);
      assert k.sizeText + text == k.sizeText + [text[0]] + text[1..];
    }
  }

  /** The line with a chunk's length. */
  lemma ReadSize(cap: nat, k: Chunk, n: nat, more: string) returns (k1: Chunk)
    requires k.phase.SizeStart? && n <= LONG_MAX
    ensures ChunkRun(cap, k, PrintHex(n) + (CRLF + more)) == ChunkRun(cap, k1, more)
    ensures k1.size == n && k1.read == 0 && k1.cache == k.cache
    ensures k1.phase == if n == 0 then FinalCr else InChunk
  {
    hide ChunkRun;
    var text := PrintHex(n);
    PrintedHexParses(n);
    var more1 := CRLF + more;
    assert IsHexDigit(text[0]);
    assert text + more1 == [text[0]] + (text[1..] + more1);
    k1 := EatChunkByte(cap, k, text[0], text[1..] + more1);
    k1 := ReadSizeDigits(cap, k1, text[1..], more1);
    assert k1.sizeText == text;
    assert more1 == ['\r'] + (['\n'] + more);
    k1 := EatChunkByte(cap, k1, '\r', ['\n'] + more);
    k1 := EatChunkByte(cap, k1, '\n', more);
  }

  lemma {:induction false} ReadChunkData(cap: nat, k: Chunk, data: string, more: string) returns (k1: Chunk)
    requires k.phase.InChunk? && 0 < |data| == k.size - k.read
    ensures ChunkRun(cap, k, data + more) == ChunkRun(cap, k1, more)
    ensures k1.phase.CrAfterChunk? && k1.cache == CachedAll(cap, k.cache, data)
    decreases |data|
  {
    hide ChunkRun;
    assert data + more == [data[0]] + (data[1..] + more);
    CachedAllStep(cap, k.cache, data);
    k1 := EatChunkByte(cap, k, data[0], data[1..] + more);
    if |data| > 1 {
      k1 := ReadChunkData(cap, k1, data[1..], more);
    } else {
      assert data[1..] + more == more;
      assert CachedAll(cap, k1.cache, data[1..]) == k1.cache;
    }
  }

  lemma ReadChunk(cap: nat, k: Chunk, data: string, more: string) returns (k1: Chunk)
    requires k.phase.SizeStart? && 0 < |data| <= LONG_MAX
    ensures ChunkRun(cap, k, PrintChunk(data) + more) == ChunkRun(cap, k1, more)
    ensures k1.phase.SizeStart? && k1.cache == CachedAll(cap, k.cache, data)
  {
    hide ChunkRun;
    var m := CRLF + more;
    assert PrintChunk(data) + more == PrintHex(|data|) + (CRLF + (data + m));
    k1 := ReadSize(cap, k, |data|, data + m);
    k1 := ReadChunkData(cap, k1, data, m);
    assert m == ['\r'] + (['\n'] + more);
    k1 := EatChunkByte(cap, k1, '\r', ['\n'] + more);
    k1 := EatChunkByte(cap, k1, '\n', more);
  }

  lemma ReadLastChunk(cap: nat, k: Chunk, rest: string) returns (k1: Chunk)
    requires k.phase.SizeStart?
    ensures ChunkRun(cap, k, "0\r\n\r\n" + rest) == ChunksComplete(k1, rest) && k1.cache == k.cache
  {
    var m := ['\n'] + rest;
    assert "0\r\n\r\n" + rest == PrintHex(0) + (CRLF + (['\r'] + m));
    k1 := ReadSize(cap, k, 0, ['\r'] + m);
    k1 := EatChunkByte(cap, k1, '\r', m);
    assert m[1..] == rest;
  }

  lemma CachedAllConcat(cap: nat, cache: string, a: string, b: string)
    ensures CachedAll(cap, CachedAll(cap, cache, a), b) == CachedAll(cap, cache, a + b)
  {
  }

  /** A printed chunked body is read back: its data, up to the cap, and not a byte more
      than was printed. */
  lemma {:induction false} ReadChunks(cap: nat, k: Chunk, chunks: seq<string>, rest: string) returns (k1: Chunk)
    requires k.phase.SizeStart? && Chunked(chunks).Valid()
    ensures ChunkRun(cap, k, PrintChunks(chunks) + rest) == ChunksComplete(k1, rest)
    ensures k1.cache == CachedAll(cap, k.cache, Flatten(chunks))
    decreases |chunks|
  {
    hide ChunkRun;
    if chunks == [] {
      k1 := ReadLastChunk(cap, k, rest);
      assert CachedAll(cap, k.cache, "") == k.cache;
    } else {
      var more := PrintChunks(chunks[1..]) + rest;
      assert PrintChunks(chunks) + rest == PrintChunk(chunks[0]) + more;
      k1 := ReadChunk(cap, k, chunks[0], more);
      CachedAllConcat(cap, k.cache, chunks[0], Flatten(chunks[1..]));
      k1 := ReadChunks(cap, k1, chunks[1..], rest);
    }
  }

  // ------------------------------------------------- whole messages

  /** The message holds what was printed; content beyond the cap is dropped. */
  ghost predicate HoldsBody(cfg: Config, m: Message, body: Body) {
    && m.isValid && m.status == Ok && m.isChunked == body.Chunked?
    && m.content == body.Data()[..Min(|body.Data()|, cfg.cap)] && m.contentLength == |m.content|
  }

  ghost predicate Carries(cfg: Config, s: State, r: Request) {
    && s.msg.verb == r.verb && s.msg.resource == r.resource && s.msg.query == r.query
    && s.head.headers == r.headers + r.body.Framing() && s.head.major == r.major && s.head.minor == r.minor
    && HoldsBody(cfg, s.msg, r.body)
  }

  lemma FramingFound(headers: seq<Header>, body: Body)
    requires PlainHeaders(headers) && body.Valid()
    ensures ChunkedCoding(headers + body.Framing()) == body.Chunked?
    ensures FindHeader(headers + body.Framing(), "Content-Length")
         == if body.Sized? then Some(PrintDec(|body.data|)) else None
  {
    FindHeaderConcat(headers, body.Framing(), "Transfer-Encoding");
    FindHeaderConcat(headers, body.Framing(), "Content-Length");
    assert |Lower("Content-Length")| != |Lower("Transfer-Encoding")|;
    if body.Chunked? {
      assert body.Framing()[1..] == [];
      assert Lower("chunked"[..7]) == "chunked";
    } else if body.Sized? {
      assert body.Framing()[1..] == [];
    }
  }

  /** The state once the header block is read, for a message whose body is framed. */
  ghost predicate HeadersRead(cfg: Config, s: State, headers: seq<Header>, body: Body) {
    && s.phase.Headers? && s.head.headers == headers + body.Framing() && s.chunk == INIT_CHUNK
    && !s.msg.missing && PlainHeaders(headers) && body.Valid() && !cfg.headersOnly
    && !LengthImplied(cfg, Publish(cfg, s.msg, s.head))
    && (body.NoBody? ==> cfg.isRequest)
  }

  ghost predicate BodyArrives(cfg: Config, s: State, body: Body, rest: string) {
    var v := AfterFinish(cfg, FinishHeaders(cfg, s), body.Print() + rest);
    && v.Complete? && v.rest == rest && v.state.head == s.head
    && HoldsBody(cfg, v.state.msg, body) && SameStart(v.state.msg, Publish(cfg, s.msg, s.head))
  }

  lemma SizedReadsBack(cfg: Config, s: State, headers: seq<Header>, body: Body, rest: string)
    requires HeadersRead(cfg, s, headers, body) && body.Sized?
    ensures BodyArrives(cfg, s, body, rest)
  {
    hide Run, ContentLengthOf, PrintDec, FindHeader;
    FramingFound(headers, body);
    PrintedLengthParses(|body.data|);
    var (f, data) := (FinishHeaders(cfg, s), body.data);
    if data == "" {
      assert body.Print() + rest == rest;
    } else {
      RunContent(cfg, f.state, data);
      RunConcat(cfg, f.state, data, rest);
      assert "" + Fitting(cfg.cap, 0, data) == data[..Min(|data|, cfg.cap)];
      assert "" + rest == rest;
    }
  }

  lemma ChunkedReadsBack(cfg: Config, s: State, headers: seq<Header>, body: Body, rest: string)
    requires HeadersRead(cfg, s, headers, body) && body.Chunked?
    ensures BodyArrives(cfg, s, body, rest)
  {
    hide Run, ContentLengthOf, FindHeader;
    FramingFound(headers, body);
    var (f, chunks) := (FinishHeaders(cfg, s), body.chunks);
    var k := ReadChunks(cfg.cap, f.state.chunk, chunks, rest);
    RunChunks(cfg, f.state, PrintChunks(chunks) + rest);
    assert "" + Fitting(cfg.cap, 0, Flatten(chunks)) == Flatten(chunks)[..Min(|Flatten(chunks)|, cfg.cap)];
  }

  lemma NoBodyReadsBack(cfg: Config, s: State, headers: seq<Header>, body: Body, rest: string)
    requires HeadersRead(cfg, s, headers, body) && body.NoBody?
    ensures BodyArrives(cfg, s, body, rest)
  {
    hide Run, ContentLengthOf, FindHeader;
    FramingFound(headers, body);
    assert body.Print() + rest == rest;
  }

  lemma BodyReadsBack(cfg: Config, s: State, headers: seq<Header>, body: Body, rest: string)
    requires HeadersRead(cfg, s, headers, body)
    ensures var v := AfterFinish(cfg, FinishHeaders(cfg, s), body.Print() + rest);
            && v.Complete? && v.rest == rest && v.state.head == s.head
            && HoldsBody(cfg, v.state.msg, body) && SameStart(v.state.msg, Publish(cfg, s.msg, s.head))
  {
    hide HeadersRead, AfterFinish, FinishHeaders, HoldsBody, SameStart;
    match body {
      case NoBody => NoBodyReadsBack(cfg, s, headers, body, rest);
      case Sized(_) => SizedReadsBack(cfg, s, headers, body, rest);
      case Chunked(_) => ChunkedReadsBack(cfg, s, headers, body, rest);
    }
  }

  /** What the first line of a message has put into it. */
  ghost predicate SameStart(m: Message, m': Message) {
    && m.verb == m'.verb && m.resource == m'.resource && m.query == m'.query
    && m.statusCode == m'.statusCode && m.statusMessage == m'.statusMessage
  }

  lemma CanonicalParts(r: Request)
    requires Canonical(r)
    ensures ValidHeaders(r.headers) && r.body.Valid()
  {
  }

  lemma ReadRequestHead(cfg: Config, r: Request, rest: string) returns (h: Head)
    requires Canonical(r) && cfg.isRequest
    ensures |r.body.Print() + rest| < |r.Print() + rest|
    ensures HeadRun(cfg, InitHead(true), r.Print() + rest) == HeadComplete(h, r.body.Print() + rest)
    ensures h.headers == r.headers + r.body.Framing() && h.major == r.major && h.minor == r.minor
    ensures h.verb == r.verb && h.resource == r.resource && h.query == r.query
  {
    hide HeadRun, PrintHeaders, ValidHeaders;
    CanonicalParts(r);
    var more := r.body.Print() + rest;
    var headers := r.headers + r.body.Framing();
    FramingValid(r.headers, r.body);
    assert r.Print() + rest == r.PrintLine() + (PrintHeaders(headers) + more);
    h := ReadRequestLine(cfg, r, PrintHeaders(headers) + more);
    h := ReadHeaders(cfg, h, headers, more);
    assert [] + headers == headers;
  }

  /** A printed request is read back, and reading stops exactly at its last byte. */
  lemma RequestReadsBack(cfg: Config, r: Request, rest: string)
    requires Canonical(r) && cfg.isRequest && !cfg.headersOnly
    ensures var v := Run(cfg, Init(cfg, ""), r.Print() + rest);
            v.Complete? && v.rest == rest && Carries(cfg, v.state, r)
  {
    hide Run, HeadRun, FinishHeaders, HoldsBody;
    var s, more, input := Init(cfg, ""), r.body.Print() + rest, r.Print() + rest;
    var h := ReadRequestHead(cfg, r, rest);
    RunHead(cfg, s, input);
    BodyReadsBack(cfg, Count(s.(phase := Headers, head := h), |input| - |more|), r.headers, r.body, rest);
  }

  lemma FramingValid(headers: seq<Header>, body: Body)
    requires ValidHeaders(headers) && body.Valid()
    ensures ValidHeaders(headers + body.Framing())
  {
    hide PrintDec, ValidName, ValidValue;
    FramingWords();
    if body.Sized? {
      LengthIsValue(|body.data|);
    }
  }

  lemma FramingWords()
    ensures ValidName("Content-Length") && ValidName("Transfer-Encoding") && ValidValue("chunked")
  {
    hide ValidName;
    LengthHeaderName();
    CodingHeaderName();
  }

  lemma LengthHeaderName()
    ensures ValidName("Content-Length")
  {
    assert "Content-Length" == "Content" + "-Length";
    assert forall c <- "Content" :: IsToken(c);
    assert forall c <- "-Length" :: IsToken(c);
  }

  lemma CodingHeaderName()
    ensures ValidName("Transfer-Encoding")
  {
    assert "Transfer-Encoding" == "Transfer" + "-Encoding";
    assert forall c <- "Transfer" :: IsToken(c);
    assert forall c <- "-Encoding" :: IsToken(c);
  }

  lemma LengthIsValue(n: nat)
    requires n < SIZE_LIMIT
    ensures ValidValue(PrintDec(n))
  {
    hide PrintDec;
    SizeHasTwentyDigits(n);
    forall c <- PrintDec(n) ensures !IsControl(c) { assert IsDigit(c); }
  }

  // ----------------------------------------------------------- pipelining

  ghost function PrintAll(rs: seq<Request>): string {
    if rs == [] then "" else rs[0].Print() + PrintAll(rs[1..])
  }

  /** A request after which its sender may send another one: it has version 1.1 or later,
      and does not ask for the connection to be closed. */
  ghost predicate KeepsAlive(r: Request) {
    (r.major, r.minor) != (1, 0) && r.major >= 1 && FindHeader(r.headers, "Connection") != Some("close")
  }

  /** How many of the requests are answered: all up to the first one that ends it. */
  ghost function Served(rs: seq<Request>): nat {
    if rs == [] then 0 else if KeepsAlive(rs[0]) then 1 + Served(rs[1..]) else 1
  }

  lemma ConnectionFound(r: Request)
    ensures FindHeader(r.headers + r.body.Framing(), "Connection") == FindHeader(r.headers, "Connection")
  {
    FindHeaderConcat(r.headers, r.body.Framing(), "Connection");
    assert |Lower("Connection")| == 10;
    assert forall h <- r.body.Framing() :: |Lower(h.0)| != 10;
  }

  lemma FirstDecoded(cfg: Config, rs: seq<Request>)
    requires rs != [] && Canonical(rs[0])
    requires var v := Run(cfg, Init(cfg, ""), PrintAll(rs));
             v.Complete? && v.rest == PrintAll(rs[1..]) && Carries(cfg, v.state, rs[0])
    ensures var v := Run(cfg, Init(cfg, ""), PrintAll(rs));
            Decode(cfg, PrintAll(rs)) == [v.state] + if KeepsAlive(rs[0]) then Decode(cfg, PrintAll(rs[1..])) else []
  {
    hide Run, Init, Canonical, HoldsBody, PrintAll, FindHeader;
    ConnectionFound(rs[0]);
  }

  lemma DecodeNothing(cfg: Config)
    ensures Decode(cfg, "") == []
  {
    RunNothing(cfg, Init(cfg, ""));
  }

  /** Requests laid back to back are decoded into exactly those requests, in order, up to
      the first one that does not keep the connection alive; nothing is read behind it. */
  lemma {:induction false} PipelineReadsBack(cfg: Config, rs: seq<Request>)
    requires cfg.isRequest && !cfg.headersOnly
    requires forall i | 0 <= i < |rs| :: Canonical(rs[i])
    ensures var seen := Decode(cfg, PrintAll(rs));
            |seen| == Served(rs) <= |rs| && forall i | 0 <= i < |seen| :: Carries(cfg, seen[i], rs[i])
    decreases |rs|
  {
    hide Run, Init, Canonical, Carries, KeepAlive, Decode, KeepsAlive;
    if rs == [] {
      DecodeNothing(cfg);
    } else {
      var (seen, more) := (Decode(cfg, PrintAll(rs)), Decode(cfg, PrintAll(rs[1..])));
      assert forall i | 0 <= i < |rs| - 1 :: rs[1..][i] == rs[i + 1];
      RequestReadsBack(cfg, rs[0], PrintAll(rs[1..]));
      PipelineReadsBack(cfg, rs[1..]);
      FirstDecoded(cfg, rs);
      if KeepsAlive(rs[0]) {
        assert seen[1..] == more;
        assert forall i | 1 <= i < |seen| :: seen[i] == more[i - 1];
      }
    }
  }
}
