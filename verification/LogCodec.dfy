/** LogCodec as it is: loops over a stream, a fixed read buffer, a current format that
    comments in the stream may replace. Each method is proved against LogFormat. */
module LogCodec {
  import opened HttpTypes
  import opened UrlCodec
  import opened LogFormat
  import opened LogRoundTrip

  class InputStream {
    const data: string
    var pos: nat

    constructor (data: string)
      ensures Valid() && Rest() == data
    {
      this.data, pos := data, 0;
    }

    predicate Valid()
      reads this
    {
      pos <= |data|
    }

    ghost function Rest(): string
      requires Valid()
      reads this
    {
      data[pos..]
    }

    predicate Eof()
      requires Valid()
      reads this
      ensures Eof() <==> Rest() == ""
    {
      pos == |data|
    }

    /** The next character, without consuming it. */
    function Sgetc(): (c: char)
      requires Valid()
      reads this
      ensures c == Peek(Rest())
    {
      if pos == |data| then EOF_CHAR else data[pos]
    }

    method Snextc()
      requires Valid()
      modifies this`pos
      ensures Valid() && Rest() == Tail(old(Rest()))
    {
      if pos < |data| {
        assert data[pos..][1..] == data[pos + 1..];
        pos := pos + 1;
      }
    }
  }

  class LogCodec {
    const cfg: Settings
    const known: map<string, LogField>
    var format: seq<LogField>
    var wroteElfHeaders: bool
    const readBuf: array<char>

    constructor (cfg: Settings, fields: seq<LogField>)
      ensures this.cfg == cfg && format == fields && !wroteElfHeaders && fresh(readBuf) && Valid()
      ensures known == FieldMap(fields)
    {
      this.cfg, known, format := cfg, FieldMap(fields), fields;
      wroteElfHeaders := false;
      readBuf := new char[READ_BUFFER_SIZE + 1];
    }

    predicate Valid() { readBuf.Length == READ_BUFFER_SIZE + 1 }

    // ------------------------------------------------------------- writing

    lemma EscapedNext(f: LogField, text: string, i: nat, dst: string)
      requires i < |text|
      ensures dst + Escaped(f, text[i..])
           == (if text[i] == f.delimEnd then dst + [f.escape] else dst) + [text[i]] + Escaped(f, text[i + 1..])
    {
      assert text[i..][1..] == text[i + 1..];
    }

    method WriteText(f: LogField, text: string) returns (dst: string)
      ensures dst == Escaped(f, text)
    {
      dst := "";
      assert text[0..] == text && Escaped(f, "") == "";
      hide Escaped;
      for i := 0 to |text|
        invariant Escaped(f, text) == dst + Escaped(f, text[i..])
      {
        EscapedNext(f, text, i, dst);
        if text[i] == f.delimEnd {
          dst := dst + [f.escape];
        }
        dst := dst + [text[i]];
      }
    }

    method WriteField(f: LogField, e: Event) returns (out: string)
      ensures out == PrintField(f, e)
    {
      out := "";
      if f.delimStart != '\0' {
        out := [f.delimStart];
      }
      var shown := f.emptyVal;
      if f.term in e {
        var text := e[f.term];
        if f.urlencode {
          text := EncodeUrl(CString(text));
        }
        if text != "" {
          shown := WriteText(f, text);
        }
      }
      out := out + shown;
      if f.delimEnd != '\0' {
        out := out + [f.delimEnd];
      }
      assert out == Delimited(f, shown);
    }

    method WriteColumns(e: Event) returns (out: string)
      ensures out == PrintRecord(cfg, format, e)
    {
      hide PrintField;
      out := "";
      var i := 0;
      assert format[0..] == format;
      while i < |format|
        invariant i <= |format|
        invariant PrintRecord(cfg, format, e) == out + PrintRecord(cfg, format[i..], e)
      {
        ghost var done, rest := out, format[i..];
        assert rest[0] == format[i] && rest[1..] == format[i + 1..];
        var field := WriteField(format[i], e);
        out := out + field;
        i := i + 1;
        var join := "";
        if i < |format| {
          join := cfg.fieldJoin;
        }
        out := out + join;
        assert PrintRecord(cfg, rest, e) == field + (join + PrintRecord(cfg, format[i..], e));
        assert done + (field + (join + PrintRecord(cfg, format[i..], e))) == done + field + join + PrintRecord(cfg, format[i..], e);
      }
      out := out + cfg.eventJoin;
    }

    /** LogCodec::write: the text added to the stream; headers come before the first event. */
    method Write(e: Event, now: string, version: string) returns (out: string)
      modifies this`wroteElfHeaders
      ensures wroteElfHeaders == (old(wroteElfHeaders) || cfg.handleElf)
      ensures out == (if cfg.handleElf && !old(wroteElfHeaders) then PrintHeaders(cfg, format, now, version) else "")
                     + PrintRecord(cfg, format, e)
    {
      out := "";
      if cfg.handleElf && !wroteElfHeaders {
        out := PrintHeaders(cfg, format, now, version);
        wroteElfHeaders := true;
      }
      var record := WriteColumns(e);
      out := out + record;
    }

    // ------------------------------------------------------------- reading

    /** Reads field contents into the read buffer; n is how much of it they take. */
    method ReadContents(input: InputStream, delimEnd: char, escape: char) returns (n: nat)
      requires Valid() && input.Valid()
      modifies input`pos, readBuf
      ensures input.Valid() && n <= READ_BUFFER_SIZE
      ensures (readBuf[..n], input.Rest()) == ScanField(cfg, delimEnd, escape, "", old(input.Rest()))
    {
      n := 0;
      var done := false;
      ghost var result := ScanField(cfg, delimEnd, escape, "", input.Rest());
      assert readBuf[..n] == "";
      while !done
        invariant input.Valid() && n <= READ_BUFFER_SIZE
        invariant result == if done then (readBuf[..n], input.Rest())
                            else ScanField(cfg, delimEnd, escape, readBuf[..n], input.Rest())
        decreases !done, |input.Rest()|
      {
        var c := input.Sgetc();
        ghost var buf, s := readBuf[..n], input.Rest();
        if delimEnd != '\0' && c == delimEnd && n > 0 && readBuf[n - 1] == escape {
          n := n - 1;
          assert readBuf[..n] == buf[..|buf| - 1];
        } else if delimEnd != '\0' && c == delimEnd {
          input.Snextc();
          done := true;
        } else if delimEnd == '\0' && (c in cfg.fieldSplit || c in cfg.eventSplit) {
          done := true;
        }
        if !done {
          ghost var kept := readBuf[..n];
          if n < READ_BUFFER_SIZE {
            readBuf[n] := c;
            n := n + 1;
          }
          assert readBuf[..n] == Pushed(kept, c);
          input.Snextc();
          done := input.Eof();
        }
      }
      readBuf[n] := '\0';
      assert readBuf[..n] == result.0;
    }

    method SkipDelimiters(input: InputStream)
      requires input.Valid() && !input.Eof() && Peek(input.Rest()) in cfg.fieldSplit
      modifies input`pos
      ensures input.Valid()
      ensures input.Rest() == if cfg.consumeDelims then SkipSplit(cfg, old(input.Rest())) else old(input.Rest())[1..]
    {
      input.Snextc();
      while cfg.consumeDelims && !input.Eof() && input.Sgetc() in cfg.fieldSplit
        invariant input.Valid()
        invariant cfg.consumeDelims ==> SkipSplit(cfg, input.Rest()) == SkipSplit(cfg, old(input.Rest()))
        invariant !cfg.consumeDelims ==> input.Rest() == old(input.Rest())[1..]
        decreases |input.Rest()|
      {
        input.Snextc();
      }
    }

    /** The field loop of LogCodec::read. */
    method ReadColumns(input: InputStream) returns (e: Event)
      requires Valid() && input.Valid()
      modifies input`pos, readBuf
      ensures input.Valid()
      ensures (e, input.Rest()) == ReadFields(cfg, format, old(input.Rest()), map[])
    {
      hide ScanField, SetField, SkipSplit;
      e := map[];
      var i := 0;
      var stop := false;
      ghost var result := ReadFields(cfg, format, input.Rest(), map[]);
      assert format[0..] == format;
      while !stop && i < |format| && !input.Eof() && input.Sgetc() !in cfg.eventSplit
        invariant input.Valid() && i <= |format|
        invariant result == if stop then (e, input.Rest()) else ReadFields(cfg, format[i..], input.Rest(), e)
        decreases |format| - i, !stop
      {
        ghost var s, e0 := input.Rest(), e;
        var f := format[i];
        assert format[i..][0] == f && format[i..][1..] == format[i + 1..];
        if f.delimStart != '\0' && input.Sgetc() != f.delimStart && !f.optDelims {
          stop := true;
        } else {
          var delimEnd := f.delimEnd;
          if f.delimStart != '\0' {
            if input.Sgetc() == f.delimStart {
              input.Snextc();
            } else {
              delimEnd := '\0';
            }
          }
          var n := ReadContents(input, delimEnd, f.escape);
          e := SetField(f, readBuf[..n], e);
          if input.Eof() || input.Sgetc() in cfg.eventSplit || input.Sgetc() !in cfg.fieldSplit {
            stop := true;
          } else {
            SkipDelimiters(input);
            i := i + 1;
          }
        }
      }
    }

    method SkipLeadingSpaces(text: string) returns (rest: string)
      ensures rest == SkipSpaces(text)
    {
      rest := text;
      while rest != "" && rest[0] == ' '
        invariant SkipSpaces(rest) == SkipSpaces(text)
        decreases |rest|
      {
        rest := rest[1..];
      }
    }

    /** The field name at the start of a text, and the text after it. */
    method TakeName(text: string) returns (name: string, rest: string)
      ensures name == NameOf(cfg, text) && text == name + rest
    {
      var n := 0;
      while n < |text| && text[n] !in cfg.eventSplit && text[n] != ' '
        invariant n <= |text| && NameOf(cfg, text) == text[..n] + NameOf(cfg, text[n..])
      {
        assert text[n..][1..] == text[n + 1..];
        n := n + 1;
      }
      assert NameOf(cfg, text[n..]) == "";
      assert text == text[..n] + text[n..] && text[..n] + "" == text[..n];
      name, rest := text[..n], text[n..];
    }

    /** changeELFFormat: false stands for the exception thrown on an unknown name. */
    method ChangeElfFormat(fmt: string) returns (ok: bool)
      modifies this`format
      ensures ok <==> ParseFormat(cfg, known, fmt).Some?
      ensures ok ==> Some(format) == ParseFormat(cfg, known, fmt)
    {
      format := [];
      PrependedTwice([], [], ParseFormat(cfg, known, fmt));
      var rest := fmt;
      var lastField := false;
      while !lastField && !AtRecordEnd(cfg, rest)
        invariant Prepended(format, if lastField then Some([]) else ParseFormat(cfg, known, rest)) == ParseFormat(cfg, known, fmt)
        decreases !lastField, |rest|
      {
        SkipSpacesIsSuffix(rest);
        var trimmed := SkipLeadingSpaces(rest);
        var name, after := TakeName(trimmed);
        assert after == trimmed[|name|..];
        lastField := AtRecordEnd(cfg, after);
        if name !in known {
          return false;
        }
        ghost var more := if lastField then Some([]) else ParseFormat(cfg, known, after[1..]);
        assert [known[name]] + [] == [known[name]];
        assert ParseFormat(cfg, known, rest) == Prepended([known[name]], more);
        PrependedTwice(format, [known[name]], more);
        format := format + [known[name]];
        rest := if lastField then "" else after[1..];
      }
      assert format + [] == format;
      ok := true;
    }

    /** consumeVoidsAndComments: false stands for an exception. */
    method ConsumeVoidsAndComments(input: InputStream) returns (ok: bool)
      requires input.Valid()
      modifies this`format, input`pos
      ensures input.Valid()
      ensures match SkipVoids(cfg, known, old(format), old(input.Rest()))
              case BadFormat => !ok
              case Skipped(fmt, rest) => ok && format == fmt && input.Rest() == rest
    {
      ghost var result := SkipVoids(cfg, known, format, input.Rest());
      while !input.Eof()
        invariant input.Valid() && result == SkipVoids(cfg, known, format, input.Rest())
        decreases |input.Rest()|
      {
        var c := input.Sgetc();
        if c in cfg.fieldSplit || c in cfg.eventSplit {
          input.Snextc();
        } else if c in cfg.commentChars {
          var comment := ReadComment(input);
          var text := comment[..Min(|comment|, READ_BUFFER_SIZE)];
          if cfg.handleElf && FIELDS_HEADER <= text {
            ok := ChangeElfFormat(CString(text[Min(|text|, |FIELDS_HEADER| + 1)..]));
            if !ok {
              return;
            }
          }
        } else {
          break;
        }
      }
      ok := true;
    }

    /** Reads a comment line. */
    method ReadComment(input: InputStream) returns (comment: string)
      requires input.Valid()
      modifies input`pos
      ensures input.Valid() && comment == CommentText(cfg, old(input.Rest()))
      ensures comment <= old(input.Rest()) && input.Rest() == old(input.Rest())[|comment|..]
    {
      hide CommentText;
      ghost var s := input.Rest();
      comment := "";
      assert s[..0] == "" && s[0..] == s;
      while !input.Eof() && input.Sgetc() !in cfg.eventSplit
        invariant input.Valid() && |comment| <= |s| && comment == s[..|comment|] && input.Rest() == s[|comment|..]
        invariant CommentText(cfg, s) == comment + CommentText(cfg, input.Rest())
        decreases |input.Rest()|
      {
        CommentNext(cfg, comment, input.Rest());
        assert input.Rest() == s[|comment|..] && s[|comment|..][1..] == s[|comment| + 1..];
        assert s[..|comment| + 1] == s[..|comment|] + [s[|comment|]];
        comment := comment + [input.Sgetc()];
        input.Snextc();
      }
      CommentEnds(cfg, comment, input.Rest());
    }

    /** LogCodec::read: whether there was an event, and the event; thrown stands for the
        exception on a bad format. */
    method Read(input: InputStream) returns (found: bool, thrown: bool, e: Event)
      requires Valid() && input.Valid()
      modifies this`format, input`pos, readBuf
      ensures input.Valid()
      ensures match ReadEvent(cfg, known, old(format), old(input.Rest()))
              case Thrown => thrown
              case NoMore(fmt) => !thrown && !found && format == fmt && input.Eof()
              case Got(event, fmt, rest) => !thrown && found && e == event && format == fmt && input.Rest() == rest
    {
      found, thrown, e := false, false, map[];
      var ok := ConsumeVoidsAndComments(input);
      if !ok {
        thrown := true;
        return;
      }
      if input.Eof() {
        return;
      }
      e := ReadColumns(input);
      SkipRest(input);
      found := true;
    }

    /** Skips the rest of a record and the characters that separate it from the next. */
    method SkipRest(input: InputStream)
      requires input.Valid()
      modifies input`pos
      ensures input.Valid() && input.Rest() == SkipJoin(cfg, SkipRecord(cfg, old(input.Rest())))
    {
      while !input.Eof() && input.Sgetc() !in cfg.eventSplit
        invariant input.Valid() && SkipRecord(cfg, input.Rest()) == SkipRecord(cfg, old(input.Rest()))
        decreases |input.Rest()|
      {
        input.Snextc();
      }
      while !input.Eof() && input.Sgetc() in cfg.eventSplit
        invariant input.Valid() && SkipJoin(cfg, input.Rest()) == SkipJoin(cfg, SkipRecord(cfg, old(input.Rest())))
        decreases |input.Rest()|
      {
        input.Snextc();
      }
    }
  }

  lemma CommentNext(cfg: Settings, comment: string, rest: string)
    requires !AtRecordEnd(cfg, rest)
    ensures comment + CommentText(cfg, rest) == comment + [rest[0]] + CommentText(cfg, rest[1..])
  {
  }

  lemma CommentEnds(cfg: Settings, comment: string, rest: string)
    requires AtRecordEnd(cfg, rest)
    ensures comment + CommentText(cfg, rest) == comment
  {
  }

  lemma PrependedTwice(a: seq<LogField>, b: seq<LogField>, more: Option<seq<LogField>>)
    ensures Prepended(a, Prepended(b, more)) == Prepended(a + b, more)
    ensures Prepended([], more) == more
  {
    if more.Some? {
      assert a + (b + more.value) == a + b + more.value;
      assert [] + more.value == more.value;
    }
  }

  method WriteAll(cfg: Settings, fields: seq<LogField>, es: seq<Event>, now: string, version: string) returns (out: string)
    ensures out == (if cfg.handleElf && es != [] then PrintHeaders(cfg, fields, now, version) else "") + PrintRecords(cfg, fields, es)
  {
    hide PrintHeaders, PrintRecord;
    var writer := new LogCodec(cfg, fields);
    out := "";
    for k := 0 to |es|
      invariant fresh(writer) && writer.cfg == cfg && writer.format == fields && writer.wroteElfHeaders == (cfg.handleElf && k > 0)
      invariant out == (if cfg.handleElf && k > 0 then PrintHeaders(cfg, fields, now, version) else "") + PrintRecords(cfg, fields, es[..k])
    {
      var record := writer.Write(es[k], now, version);
      PrintRecordsSnoc(cfg, fields, es[..k], es[k]);
      assert es[..k + 1] == es[..k] + [es[k]];
      out := out + record;
    }
    assert es[..|es|] == es;
  }

  method ReadAll(cfg: Settings, fields: seq<LogField>, text: string, ghost es: seq<Event>) returns (back: seq<Event>)
    requires ReadsAs(cfg, FieldMap(fields), fields, text, es)
    ensures back == es
  {
    hide ReadEvent, FieldMap;
    var reader := new LogCodec(cfg, fields);
    var input := new InputStream(text);
    back := [];
    var found, thrown, e := reader.Read(input);
    ghost var left := es;
    while found
      invariant reader.Valid() && input.Valid() && fresh(reader) && fresh(input) && fresh(reader.readBuf)
      invariant reader.cfg == cfg && reader.known == FieldMap(fields) && !thrown && es == back + left
      invariant found == (left != [])
      invariant found ==> e == left[0] && ReadsAs(cfg, reader.known, reader.format, input.Rest(), left[1..])
      decreases |left|
    {
      back, left := back + [e], left[1..];
      found, thrown, e := reader.Read(input);
    }
  }

  /** Events written with one codec are read back from the stream by another that knows the
      same fields, in another order if there are headers: all of them, and nothing else. */
  method WriteThenRead(cfg: Settings, fields: seq<LogField>, mine: seq<LogField>, es: seq<Event>,
                       now: string, version: string) returns (back: seq<Event>)
    requires ConfigOk(cfg) && forall i | 0 <= i < |es| :: RecordOk(cfg, fields, es[i])
    requires if cfg.handleElf then HeadersOk(cfg, FieldMap(mine), fields, now, version) else mine == fields
    ensures back == es
  {
    hide ReadsAs, PrintHeaders, PrintRecords;
    var out := WriteAll(cfg, fields, es, now, version);
    if es == [] {
      NothingWritten(cfg, FieldMap(mine), fields, mine);
    } else if cfg.handleElf {
      OtherOrderReadsBack(cfg, FieldMap(mine), mine, fields, now, version, es);
    } else {
      assert out == PrintRecords(cfg, fields, es);
      StreamReadsBack(cfg, FieldMap(mine), mine, es);
    }
    back := ReadAll(cfg, mine, out, es);
  }

  lemma {:induction false} NothingWritten(cfg: Settings, known: map<string, LogField>, fields: seq<LogField>, mine: seq<LogField>)
    ensures ReadsAs(cfg, known, mine, "" + PrintRecords(cfg, fields, []), [])
  {
  }

  lemma {:induction false} PrintRecordsSnoc(cfg: Settings, format: seq<LogField>, es: seq<Event>, e: Event)
    ensures PrintRecords(cfg, format, es + [e]) == PrintRecords(cfg, format, es) + PrintRecord(cfg, format, e)
    decreases |es|
  {
    if es == [] {
      assert es + [e] == [e] && [e][1..] == [];
    } else {
      assert (es + [e])[1..] == es[1..] + [e];
      PrintRecordsSnoc(cfg, format, es[1..], e);
    }
  }

  /** mapFieldToTerm, once for each field. */
  function FieldMap(fields: seq<LogField>): map<string, LogField> {
    if fields == [] then map[] else FieldMap(fields[..|fields| - 1])[fields[|fields| - 1].name := fields[|fields| - 1]]
  }
}
