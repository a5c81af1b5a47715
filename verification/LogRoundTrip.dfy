/** Events that are written and read back: one field, one record, a whole stream, and a
    stream whose headers announce another order of the fields. */
module LogRoundTrip {
  import opened HttpTypes
  import opened UrlCodec
  import opened LogFormat

  // -------------------------------------------------------------- one field

  /** Whether a delimited text survives: its end must not be taken for an escape, and
      an escape must not be taken for the end. */
  predicate Survives(f: LogField, text: string) {
    && (text == "" || text[|text| - 1] != f.escape)
    && (f.escape != f.delimEnd || f.delimEnd !in text)
  }

  /** Reading the contents of a delimited field up to its closing delimiter. */
  lemma {:induction false} ScanEscaped(cfg: Settings, f: LogField, buf: string, text: string, rest: string)
    requires f.delimEnd != '\0' && (f.escape != f.delimEnd || f.delimEnd !in text)
    requires |buf| + |text| <= READ_BUFFER_SIZE
    ensures ScanField(cfg, f.delimEnd, f.escape, buf, Escaped(f, text) + ([f.delimEnd] + rest))
         == ScanField(cfg, f.delimEnd, f.escape, buf + text, [f.delimEnd] + rest)
    decreases |text|
  {
    var more := [f.delimEnd] + rest;
    if text == "" {
      assert Escaped(f, text) + more == more;
      assert buf + text == buf;
    } else {
      var tail := Escaped(f, text[1..]) + more;
      assert buf + text == buf + [text[0]] + text[1..];
      if text[0] == f.delimEnd {
        assert Escaped(f, text) + more == [f.escape] + ([f.delimEnd] + tail);
        ScanPush(cfg, f, buf, f.escape, [f.delimEnd] + tail);
        var b := buf + [f.escape];
        assert b[..|b| - 1] == buf;
        assert ([f.delimEnd] + tail)[1..] == tail;
      } else {
        assert Escaped(f, text) + more == [text[0]] + tail;
        ScanPush(cfg, f, buf, text[0], tail);
      }
      ScanEscaped(cfg, f, buf + [text[0]], text[1..], rest);
    }
  }

  /** A character other than the closing delimiter goes to the buffer. */
  lemma {:induction false} ScanPush(cfg: Settings, f: LogField, buf: string, c: char, more: string)
    requires f.delimEnd != '\0' && c != f.delimEnd && more != "" && |buf| < READ_BUFFER_SIZE
    ensures ScanField(cfg, f.delimEnd, f.escape, buf, [c] + more) == ScanField(cfg, f.delimEnd, f.escape, buf + [c], more)
  {
    assert ([c] + more)[1..] == more;
  }

  lemma {:induction false} ScanShrinks(cfg: Settings, d: char, escape: char, buf: string, s: string)
    requires d != '\0' && s != ""
    ensures |ScanField(cfg, d, escape, buf, s).1| < |s|
    decreases |s|
  {
    var c := Peek(s);
    if |s| > 1 {
      if c == d && buf != "" && buf[|buf| - 1] == escape {
        ScanShrinks(cfg, d, escape, Pushed(buf[..|buf| - 1], c), s[1..]);
      } else if c != d {
        ScanShrinks(cfg, d, escape, Pushed(buf, c), s[1..]);
      }
    }
  }

  /** A delimited text is read back, with the stream just behind its closing delimiter,
      exactly when it survives. */
  lemma {:induction false} DelimitedReadsBack(cfg: Settings, f: LogField, text: string, rest: string)
    requires f.delimEnd != '\0' && |text| <= READ_BUFFER_SIZE
    ensures ScanField(cfg, f.delimEnd, f.escape, "", Escaped(f, text) + ([f.delimEnd] + rest)) == (text, rest)
            <==> Survives(f, text)
  {
    var more := [f.delimEnd] + rest;
    if f.escape == f.delimEnd && f.delimEnd in text {
      FirstDelimiterEnds(cfg, f, "", text, rest);
    } else {
      ScanEscaped(cfg, f, "", text, rest);
      assert "" + text == text;
      assert more[1..] == rest;
      if text != "" && text[|text| - 1] == f.escape {
        if rest != "" {
          ScanShrinks(cfg, f.delimEnd, f.escape, Pushed(text[..|text| - 1], f.delimEnd), rest);
        }
      }
    }
  }

  /** When the delimiter escapes itself, the first one inside a text ends the field. */
  lemma {:induction false} FirstDelimiterEnds(cfg: Settings, f: LogField, buf: string, text: string, rest: string)
    requires f.delimEnd != '\0' && f.escape == f.delimEnd && f.delimEnd in text && f.delimEnd !in buf
    requires |buf| + |text| <= READ_BUFFER_SIZE
    ensures |ScanField(cfg, f.delimEnd, f.escape, buf, Escaped(f, text) + ([f.delimEnd] + rest)).0| < |buf| + |text|
    decreases |text|
  {
    if text[0] != f.delimEnd {
      var tail := Escaped(f, text[1..]) + ([f.delimEnd] + rest);
      assert Escaped(f, text) + ([f.delimEnd] + rest) == [text[0]] + tail;
      ScanPush(cfg, f, buf, text[0], tail);
      FirstDelimiterEnds(cfg, f, buf + [text[0]], text[1..], rest);
    }
  }

  predicate Splits(cfg: Settings, c: char) { c in cfg.fieldSplit || c in cfg.eventSplit }

  /** Reading the contents of a field without delimiters up to the next split character or
      the end of the stream; the buffer takes what fits. */
  lemma {:induction false} ScanPlain(cfg: Settings, escape: char, buf: string, text: string, rest: string)
    requires forall c <- text :: !Splits(cfg, c)
    requires if rest == "" then text != "" else Splits(cfg, rest[0])
    requires |buf| <= READ_BUFFER_SIZE
    ensures ScanField(cfg, '\0', escape, buf, text + rest) == ((buf + text)[..Min(|buf| + |text|, READ_BUFFER_SIZE)], rest)
    decreases |text|
  {
    if text == "" {
      assert text + rest == rest;
      assert (buf + text)[..|buf|] == buf;
    } else {
      assert !Splits(cfg, text[0]);
      assert (text + rest)[1..] == text[1..] + rest;
      assert (buf + text)[..Min(|buf| + |text|, READ_BUFFER_SIZE)]
          == (Pushed(buf, text[0]) + text[1..])[..Min(|Pushed(buf, text[0])| + |text| - 1, READ_BUFFER_SIZE)];
      if |text| > 1 || rest != "" {
        ScanPlain(cfg, escape, Pushed(buf, text[0]), text[1..], rest);
      }
    }
  }

  // ------------------------------------------------ what may be written

  ghost predicate ConfigOk(cfg: Settings) {
    && cfg.fieldJoin != "" && (forall c <- cfg.fieldJoin :: c in cfg.fieldSplit)
    && cfg.fieldJoin[0] !in cfg.eventSplit
    && (cfg.consumeDelims || |cfg.fieldJoin| == 1)
    && cfg.eventJoin != "" && (forall c <- cfg.eventJoin :: c in cfg.eventSplit)
  }

  /** A text that can stand in a field. */
  ghost predicate TextOk(cfg: Settings, f: LogField, text: string) {
    && |text| <= READ_BUFFER_SIZE && '\0' !in text
    && if f.delimEnd != '\0' then Survives(f, text)
       else text != "" && forall c <- text :: !Splits(cfg, c)
  }

  ghost predicate FieldOk(cfg: Settings, f: LogField) {
    && (f.delimStart == '\0' <==> f.delimEnd == '\0')
    && (f.delimStart != '\0' ==> !Splits(cfg, f.delimStart) && f.delimEnd !in f.emptyVal)
    && TextOk(cfg, f, f.emptyVal)
  }

  ghost predicate ValueOk(cfg: Settings, f: LogField, value: string) {
    && value != "" && '\0' !in value && (f.urlencode ==> AllBytes(value))
    && TextOk(cfg, f, FieldText(f, value)) && FieldText(f, value) != f.emptyVal
  }

  /** The text a field shows for an event. */
  function Shown(f: LogField, e: Event): string {
    if f.term in e && FieldText(f, e[f.term]) != "" then FieldText(f, e[f.term]) else f.emptyVal
  }

  function FirstChar(f: LogField, e: Event): char
    requires f.delimStart == '\0' ==> Shown(f, e) != ""
  {
    if f.delimStart != '\0' then f.delimStart else Shown(f, e)[0]
  }

  ghost predicate EventOk(cfg: Settings, format: seq<LogField>, e: Event) {
    forall i | 0 <= i < |format| ::
      FieldOk(cfg, format[i]) && (format[i].term in e ==> ValueOk(cfg, format[i], e[format[i].term]))
  }

  lemma {:induction false} CStringWhole(s: string)
    requires '\0' !in s
    ensures CString(s) == s && forall more :: CString(s + (['\0'] + more)) == s
  {
    if s != "" {
      CStringWhole(s[1..]);
      forall more ensures CString(s + (['\0'] + more)) == s {
        assert (s + (['\0'] + more))[1..] == s[1..] + (['\0'] + more);
      }
    } else {
      assert forall more :: (s + (['\0'] + more))[0] == '\0';
    }
  }

  lemma {:induction false} NothingToEscape(f: LogField, text: string)
    requires f.delimEnd !in text
    ensures Escaped(f, text) == text
  {
    if text != "" {
      NothingToEscape(f, text[1..]);
    }
  }

  lemma {:induction false} FieldShows(cfg: Settings, f: LogField, e: Event)
    requires FieldOk(cfg, f) && (f.term in e ==> ValueOk(cfg, f, e[f.term]))
    ensures PrintField(f, e) == Delimited(f, Escaped(f, Shown(f, e))) && TextOk(cfg, f, Shown(f, e))
    ensures forall acc :: SetField(f, Shown(f, e), acc) == Taken(f, e, acc)
  {
    NothingToEscape(f, f.emptyVal);
    CStringWhole(f.emptyVal);
    if f.term in e {
      var v := e[f.term];
      CStringWhole(v);
      CStringWhole(FieldText(f, v));
      if f.urlencode {
        UrlRoundTrip(v);
      }
    }
  }

  // -------------------------------------------------------------- one record

  lemma {:induction false} SkipSplitJoin(cfg: Settings, join: string, rest: string)
    requires forall c <- join :: c in cfg.fieldSplit
    ensures SkipSplit(cfg, join + rest) == SkipSplit(cfg, rest)
    decreases |join|
  {
    if join == "" {
      assert join + rest == rest;
    } else {
      assert join[0] in cfg.fieldSplit;
      assert (join + rest)[1..] == join[1..] + rest;
      SkipSplitJoin(cfg, join[1..], rest);
    }
  }

  lemma {:induction false} SkipEventJoin(cfg: Settings, join: string, rest: string)
    requires (forall c <- join :: c in cfg.eventSplit) && (rest == "" || rest[0] !in cfg.eventSplit)
    ensures SkipJoin(cfg, join + rest) == rest
    decreases |join|
  {
    if join == "" {
      assert join + rest == rest;
    } else {
      assert join[0] in cfg.eventSplit;
      assert (join + rest)[1..] == join[1..] + rest;
      SkipEventJoin(cfg, join[1..], rest);
    }
  }

  /** The printed record begins with the first field's first character. */
  lemma {:induction false} RecordStarts(cfg: Settings, format: seq<LogField>, e: Event)
    requires EventOk(cfg, format, e) && format != []
    ensures PrintRecord(cfg, format, e) != "" && PrintRecord(cfg, format, e)[0] == FirstChar(format[0], e)
    ensures !Splits(cfg, FirstChar(format[0], e))
  {
    FieldShows(cfg, format[0], e);
    if format[0].delimStart == '\0' {
      NothingToEscape(format[0], Shown(format[0], e));
    }
  }

  /** The fields of an event that a format knows, in the order they are read. */
  function Filled(acc: Event, format: seq<LogField>, e: Event): Event
    decreases |format|
  {
    if format == [] then acc
    else Filled(Taken(format[0], e, acc), format[1..], e)
  }

  lemma {:induction false} ReadDelimitedField(cfg: Settings, f: LogField, text: string, more: string)
    requires f.delimStart != '\0' && f.delimEnd != '\0' && !Splits(cfg, f.delimStart) && TextOk(cfg, f, text)
    ensures var s := Delimited(f, Escaped(f, text)) + more;
            && !AtRecordEnd(cfg, s) && s[0] == f.delimStart
            && ScanField(cfg, f.delimEnd, f.escape, "", s[1..]) == (text, more)
  {
    hide ScanField, Escaped, Survives;
    var s := Delimited(f, Escaped(f, text)) + more;
    assert s[1..] == Escaped(f, text) + ([f.delimEnd] + more);
    DelimitedReadsBack(cfg, f, text, more);
  }

  lemma {:induction false} ReadPlainField(cfg: Settings, f: LogField, text: string, more: string)
    requires |text| <= READ_BUFFER_SIZE && text != "" && forall c <- text :: !Splits(cfg, c)
    requires more == "" || Splits(cfg, more[0])
    ensures !AtRecordEnd(cfg, text + more) && ScanField(cfg, '\0', f.escape, "", text + more) == (text, more)
  {
    hide ScanField;
    ScanPlain(cfg, f.escape, "", text, more);
    assert ("" + text)[..|text|] == text;
    assert !Splits(cfg, text[0]);
  }

  /** One printed field is read: its text is in the buffer, and what follows is left. */
  lemma {:induction false} ReadOneField(cfg: Settings, f: LogField, e: Event, bare: bool, more: string)
    requires ColumnOk(cfg, f, e, bare)
    requires more == "" || Splits(cfg, more[0]) || Closed(f, bare)
    ensures var s := Column(f, e, bare) + more;
            var delimited := f.delimStart != '\0' && !bare;
            && !AtRecordEnd(cfg, s)
            && (f.delimStart != '\0' ==> (s[0] == f.delimStart <==> !bare))
            && ScanField(cfg, if bare then '\0' else f.delimEnd, f.escape, "", if delimited then s[1..] else s) == (Shown(f, e), more)
  {
    hide ScanField, Escaped, FieldText, Shown, PrintField, Survives, AtRecordEnd;
    FieldShows(cfg, f, e);
    if f.delimStart != '\0' && !bare {
      ReadDelimitedField(cfg, f, Shown(f, e), more);
    } else {
      if !bare {
        NothingToEscape(f, Shown(f, e));
        assert Delimited(f, Shown(f, e)) == Shown(f, e);
      }
      ReadPlainField(cfg, f, Shown(f, e), more);
    }
  }

  /** The event after a field has been read into it. */
  function Taken(f: LogField, e: Event, acc: Event): Event {
    if f.term in e then acc[f.term := e[f.term]] else acc
  }

  /** A column that its own delimiter ends. */
  predicate Closed(f: LogField, bare: bool) { f.delimStart != '\0' && !bare }

  /** A field as it may stand in a record: as it is printed, or without its delimiters where
      these are optional and the text cannot be mistaken for a delimited one. */
  function Column(f: LogField, e: Event, bare: bool): string {
    if bare then Shown(f, e) else PrintField(f, e)
  }

  ghost predicate BareOk(cfg: Settings, f: LogField, e: Event) {
    && f.delimStart != '\0' && f.optDelims
    && Shown(f, e) != "" && Shown(f, e)[0] != f.delimStart && forall c <- Shown(f, e) :: !Splits(cfg, c)
  }

  ghost predicate ColumnOk(cfg: Settings, f: LogField, e: Event, bare: bool) {
    FieldOk(cfg, f) && (f.term in e ==> ValueOk(cfg, f, e[f.term])) && (bare ==> BareOk(cfg, f, e))
  }

  /** The columns of an event, with the optional delimiters left out where bare says so. */
  function Columns(cfg: Settings, format: seq<LogField>, e: Event, bare: seq<bool>): string
    requires |bare| == |format|
  {
    if format == [] then ""
    else
      var join := if |format| > 1 then cfg.fieldJoin else "";
      Column(format[0], e, bare[0]) + (join + Columns(cfg, format[1..], e, bare[1..]))
  }

  ghost predicate ColumnsOk(cfg: Settings, format: seq<LogField>, e: Event, bare: seq<bool>) {
    |bare| == |format| && forall i | 0 <= i < |format| :: ColumnOk(cfg, format[i], e, bare[i])
  }

  /** The columns begin with a character that is no separator. */
  lemma {:induction false} ColumnsStart(cfg: Settings, format: seq<LogField>, e: Event, bare: seq<bool>)
    requires ColumnsOk(cfg, format, e, bare) && format != []
    ensures Columns(cfg, format, e, bare) != "" && !Splits(cfg, Columns(cfg, format, e, bare)[0])
    ensures !bare[0] ==> Columns(cfg, format, e, bare)[0] == FirstChar(format[0], e)
  {
    FieldShows(cfg, format[0], e);
    if format[0].delimStart == '\0' {
      NothingToEscape(format[0], Shown(format[0], e));
    }
  }

  /** What is printed for an event: all its columns with their delimiters. */
  lemma {:induction false} PrintedColumns(cfg: Settings, format: seq<LogField>, e: Event)
    ensures PrintRecord(cfg, format, e) == Columns(cfg, format, e, seq(|format|, _ => false)) + cfg.eventJoin
    decreases |format|
  {
    hide PrintField;
    if format != [] {
      var bare := seq(|format|, _ => false);
      PrintedColumns(cfg, format[1..], e);
      assert bare[1..] == seq(|format| - 1, _ => false);
      var (join, rest) := (if |format| > 1 then cfg.fieldJoin else "", Columns(cfg, format[1..], e, bare[1..]));
      assert join + (rest + cfg.eventJoin) == (join + rest) + cfg.eventJoin;
    } else {
      assert "" + cfg.eventJoin == cfg.eventJoin;
    }
  }

  lemma {:induction false} ReadFieldAndOn(cfg: Settings, format: seq<LogField>, e: Event, bare: bool, acc: Event, more: string)
    requires format != [] && ColumnOk(cfg, format[0], e, bare)
    requires more == "" || Splits(cfg, more[0]) || Closed(format[0], bare)
    ensures ReadFields(cfg, format, Column(format[0], e, bare) + more, acc)
         == if AtRecordEnd(cfg, more) || more[0] !in cfg.fieldSplit then (Taken(format[0], e, acc), more)
            else ReadFields(cfg, format[1..], if cfg.consumeDelims then SkipSplit(cfg, more) else more[1..],
                            Taken(format[0], e, acc))
  {
    hide ScanField, PrintField, SetField, FieldText, Shown;
    FieldShows(cfg, format[0], e);
    ReadOneField(cfg, format[0], e, bare, more);
  }

  /** The columns of an event are read into it by a reader that may expect further columns;
      what is left is what follows them. */
  lemma {:induction false} ReadColumnsBack(cfg: Settings, format: seq<LogField>, e: Event, bare: seq<bool>, extra: seq<LogField>,
                                           acc: Event, more: string)
    requires ConfigOk(cfg) && ColumnsOk(cfg, format, e, bare) && format != []
    requires more == "" || Splits(cfg, more[0]) || Closed(format[|format| - 1], bare[|format| - 1])
    ensures ReadFields(cfg, format + extra, Columns(cfg, format, e, bare) + more, acc)
         == if AtRecordEnd(cfg, more) || more[0] !in cfg.fieldSplit then (Filled(acc, format, e), more)
            else ReadFields(cfg, extra, if cfg.consumeDelims then SkipSplit(cfg, more) else more[1..], Filled(acc, format, e))
    decreases |format|
  {
    hide ReadFields, Column, FieldOk, ValueOk, BareOk, FirstChar;
    var f := format[0];
    assert (format + extra)[1..] == format[1..] + extra;
    assert ColumnOk(cfg, f, e, bare[0]);
    if |format| == 1 {
      assert Columns(cfg, format, e, bare) + more == Column(f, e, bare[0]) + more;
      assert format[1..] + extra == extra;
      ReadFieldAndOn(cfg, format + extra, e, bare[0], acc, more);
    } else {
      var next := Columns(cfg, format[1..], e, bare[1..]) + more;
      assert Columns(cfg, format, e, bare) + more == Column(f, e, bare[0]) + (cfg.fieldJoin + next);
      assert cfg.fieldJoin[0] in cfg.fieldSplit;
      ReadFieldAndOn(cfg, format + extra, e, bare[0], acc, cfg.fieldJoin + next);
      ColumnsStart(cfg, format[1..], e, bare[1..]);
      if cfg.consumeDelims {
        SkipSplitJoin(cfg, cfg.fieldJoin, next);
      } else {
        assert (cfg.fieldJoin + next)[1..] == next;
      }
      ReadColumnsBack(cfg, format[1..], e, bare[1..], extra, Taken(f, e, acc), more);
    }
  }

  lemma {:induction false} ReadPrintedFields(cfg: Settings, format: seq<LogField>, e: Event, acc: Event, more: string)
    requires ConfigOk(cfg) && EventOk(cfg, format, e) && format != []
    ensures ReadFields(cfg, format, PrintRecord(cfg, format, e) + more, acc)
         == (Filled(acc, format, e), cfg.eventJoin + more)
  {
    hide ReadFields, Columns, FieldOk, ValueOk, BareOk;
    var bare := seq(|format|, _ => false);
    PrintedColumns(cfg, format, e);
    assert format + [] == format;
    assert (Columns(cfg, format, e, bare) + cfg.eventJoin) + more == Columns(cfg, format, e, bare) + (cfg.eventJoin + more);
    assert cfg.eventJoin[0] in cfg.eventSplit;
    ReadColumnsBack(cfg, format, e, bare, [], acc, cfg.eventJoin + more);
  }

  lemma {:induction false} FilledHas(acc: Event, format: seq<LogField>, e: Event, t: Term)
    requires forall u <- acc :: u in e && acc[u] == e[u]
    ensures t in Filled(acc, format, e)
            <==> t in acc || (t in e && exists i :: 0 <= i < |format| && format[i].term == t)
    ensures t in Filled(acc, format, e) ==> Filled(acc, format, e)[t] == e[t]
    decreases |format|
  {
    if format != [] {
      FilledHas(Taken(format[0], e, acc), format[1..], e, t);
      assert forall i | 0 < i < |format| :: format[i] == format[1..][i - 1];
    }
  }

  /** The terms a format has a column for. */
  ghost predicate Covers(format: seq<LogField>, e: Event) {
    forall t <- e :: exists i :: 0 <= i < |format| && format[i].term == t
  }

  lemma {:induction false} FilledIsWhole(format: seq<LogField>, e: Event)
    requires Covers(format, e)
    ensures Filled(map[], format, e) == e
  {
    forall t ensures (t in Filled(map[], format, e) <==> t in e) && (t in e ==> Filled(map[], format, e)[t] == e[t]) {
      FilledHas(map[], format, e, t);
    }
  }

  // -------------------------------------------------------------- a stream

  ghost predicate RecordOk(cfg: Settings, format: seq<LogField>, e: Event) {
    && format != [] && EventOk(cfg, format, e) && Covers(format, e)
    && FirstChar(format[0], e) !in cfg.commentChars
  }

  function PrintRecords(cfg: Settings, format: seq<LogField>, es: seq<Event>): string {
    if es == [] then "" else PrintRecord(cfg, format, es[0]) + PrintRecords(cfg, format, es[1..])
  }

  /** Reading a stream gives these events, one after the other, and then its end. */
  ghost predicate ReadsAs(cfg: Settings, known: map<string, LogField>, format: seq<LogField>, s: string, es: seq<Event>)
    decreases |es|
  {
    var r := ReadEvent(cfg, known, format, s);
    if es == [] then r.NoMore?
    else r.Got? && r.event == es[0] && ReadsAs(cfg, known, r.format, r.rest, es[1..])
  }

  lemma {:induction false} RecordsStart(cfg: Settings, format: seq<LogField>, es: seq<Event>)
    requires forall i | 0 <= i < |es| :: RecordOk(cfg, format, es[i])
    ensures var s := PrintRecords(cfg, format, es);
            s == "" || (!Splits(cfg, s[0]) && s[0] !in cfg.commentChars)
  {
    if es != [] {
      RecordStarts(cfg, format, es[0]);
    }
  }

  /** Events that are written are read back, in order, with nothing lost or added. */
  lemma {:induction false} StreamReadsBack(cfg: Settings, known: map<string, LogField>, format: seq<LogField>, es: seq<Event>)
    requires ConfigOk(cfg) && forall i | 0 <= i < |es| :: RecordOk(cfg, format, es[i])
    ensures ReadsAs(cfg, known, format, PrintRecords(cfg, format, es), es)
    decreases |es|
  {
    if es != [] {
      var more := PrintRecords(cfg, format, es[1..]);
      assert RecordOk(cfg, format, es[0]);
      RecordStarts(cfg, format, es[0]);
      ReadPrintedFields(cfg, format, es[0], map[], more);
      FilledIsWhole(format, es[0]);
      RecordsStart(cfg, format, es[1..]);
      assert cfg.eventJoin[0] in cfg.eventSplit;
      SkipEventJoin(cfg, cfg.eventJoin, more);
      StreamReadsBack(cfg, known, format, es[1..]);
    }
  }

  // ------------------------------------------ where a read leaves the stream

  predicate Suffix(t: string, s: string) { |t| <= |s| && t == s[|s| - |t|..] }

  lemma SuffixOfSuffix(u: string, t: string, s: string)
    requires Suffix(u, t) && Suffix(t, s)
    ensures Suffix(u, s)
    ensures |u| < |t| ==> s[|s| - |u| - 1] == t[|t| - |u| - 1]
    ensures |u| == |t| ==> u == t
  {
  }

  lemma TailIsSuffix(s: string)
    ensures Suffix(s, s) && Suffix("", s) && (s != "" ==> Suffix(s[1..], s))
  {
  }

  /** What is left after skipping to the next record. */
  ghost predicate AtNextRecord(cfg: Settings, s: string, rest: string) {
    && Suffix(rest, s)
    && (rest == "" || (|rest| < |s| && s[|s| - |rest| - 1] in cfg.eventSplit && rest[0] !in cfg.eventSplit))
  }

  lemma {:induction false} SkipRecordIsSuffix(cfg: Settings, s: string)
    ensures var rest := SkipRecord(cfg, s);
            Suffix(rest, s) && AtRecordEnd(cfg, rest)
    decreases |s|
  {
    if !AtRecordEnd(cfg, s) {
      SkipRecordIsSuffix(cfg, s[1..]);
    }
  }

  lemma {:induction false} SkipJoinIsSuffix(cfg: Settings, s: string)
    ensures var rest := SkipJoin(cfg, s);
            && Suffix(rest, s) && (rest != "" ==> rest[0] !in cfg.eventSplit)
            && (|rest| < |s| ==> s[|s| - |rest| - 1] in cfg.eventSplit)
    decreases |s|
  {
    if s != "" && s[0] in cfg.eventSplit {
      SkipJoinIsSuffix(cfg, s[1..]);
    }
  }

  lemma {:induction false} ScanIsSuffix(cfg: Settings, d: char, escape: char, buf: string, s: string)
    ensures Suffix(ScanField(cfg, d, escape, buf, s).1, s)
    decreases |s|
  {
    hide Suffix, Pushed;
    TailIsSuffix(s);
    var c := Peek(s);
    if |s| > 1 && !ScanStops(cfg, d, escape, buf, c) {
      var atEnd := d != '\0' && c == d;
      var buf' := Pushed(if atEnd then buf[..|buf| - 1] else buf, c);
      ScanIsSuffix(cfg, d, escape, buf', s[1..]);
      SuffixOfSuffix(ScanField(cfg, d, escape, buf', s[1..]).1, s[1..], s);
    }
  }

  predicate ScanStops(cfg: Settings, d: char, escape: char, buf: string, c: char) {
    if d != '\0' then c == d && !(buf != "" && buf[|buf| - 1] == escape) else Splits(cfg, c)
  }

  lemma {:induction false} SkipSplitIsSuffix(cfg: Settings, s: string)
    ensures Suffix(SkipSplit(cfg, s), s)
    decreases |s|
  {
    if s != "" && s[0] in cfg.fieldSplit {
      SkipSplitIsSuffix(cfg, s[1..]);
    }
  }

  /** One column is read, or the reading of columns ends. */
  lemma {:induction false} OneColumn(cfg: Settings, format: seq<LogField>, s: string, e: Event) returns (next: string, e1: Event, last: bool)
    requires format != [] && s != ""
    ensures Suffix(next, s)
    ensures ReadFields(cfg, format, s, e) == if last then (e1, next) else ReadFields(cfg, format[1..], next, e1)
  {
    hide ScanField, SetField, Suffix, SkipSplit;
    TailIsSuffix(s);
    next, e1, last := s, e, true;
    if !AtRecordEnd(cfg, s) {
      var f := format[0];
      var delimited := f.delimStart != '\0' && s[0] == f.delimStart;
      if f.delimStart == '\0' || delimited || f.optDelims {
        var delimEnd := if f.delimStart != '\0' && !delimited then '\0' else f.delimEnd;
        var t := if delimited then s[1..] else s;
        ScanIsSuffix(cfg, delimEnd, f.escape, "", t);
        var (buf, rest) := ScanField(cfg, delimEnd, f.escape, "", t);
        last := AtRecordEnd(cfg, rest) || rest[0] !in cfg.fieldSplit;
        e1 := SetField(f, buf, e);
        next := if last then rest else if cfg.consumeDelims then SkipSplit(cfg, rest) else rest[1..];
        TailIsSuffix(rest);
        SkipSplitIsSuffix(cfg, rest);
        SuffixOfSuffix(next, rest, t);
        SuffixOfSuffix(next, t, s);
      }
    }
  }

  lemma {:induction false} FieldsLeaveSuffix(cfg: Settings, format: seq<LogField>, s: string, e: Event)
    ensures Suffix(ReadFields(cfg, format, s, e).1, s)
    decreases |format|
  {
    if format != [] && s != "" {
      hide ReadFields;
      var next, e1, last := OneColumn(cfg, format, s, e);
      if !last {
        FieldsLeaveSuffix(cfg, format[1..], next, e1);
        SuffixOfSuffix(ReadFields(cfg, format[1..], next, e1).1, next, s);
      }
    }
  }

  lemma {:induction false} VoidsLeaveSuffix(cfg: Settings, known: map<string, LogField>, format: seq<LogField>, s: string)
    requires SkipVoids(cfg, known, format, s).Skipped?
    ensures var rest := SkipVoids(cfg, known, format, s).rest;
            && Suffix(rest, s)
            && (rest != "" ==> !Splits(cfg, rest[0]) && rest[0] !in cfg.commentChars)
    decreases |s|
  {
    hide AfterComment, CommentText;
    if s != "" {
      if Splits(cfg, s[0]) {
        VoidsLeaveSuffix(cfg, known, format, s[1..]);
      } else if s[0] in cfg.commentChars {
        var comment := CommentText(cfg, s);
        assert comment != "" by { CommentStarts(cfg, s); }
        CommentIsPrefix(cfg, s);
        var next := AfterComment(cfg, known, format, comment);
        VoidsLeaveSuffix(cfg, known, next.value, s[|comment|..]);
      }
    }
  }

  lemma {:induction false} CommentStarts(cfg: Settings, s: string)
    requires !AtRecordEnd(cfg, s)
    ensures CommentText(cfg, s) != ""
  {
  }

  lemma {:induction false} SkippingStops(cfg: Settings, s: string, t: string, u: string)
    requires Suffix(t, s) && Suffix(u, t) && !AtRecordEnd(cfg, t)
    ensures var rest := SkipJoin(cfg, SkipRecord(cfg, u)); |rest| < |s| && AtNextRecord(cfg, s, rest)
  {
    hide SkipRecord, SkipJoin, Suffix;
    var v := SkipRecord(cfg, u);
    SkipRecordIsSuffix(cfg, u);
    SuffixOfSuffix(v, u, t);
    assert |v| < |t| by { assert v != t; SuffixIsShorter(v, t); }
    SuffixOfSuffix(v, t, s);
    SuffixIsShorter(t, s);
    SkipJoinIsSuffix(cfg, v);
    var rest := SkipJoin(cfg, v);
    SuffixIsShorter(rest, v);
    SuffixOfSuffix(rest, v, s);
  }

  lemma SuffixIsShorter(t: string, s: string)
    requires Suffix(t, s)
    ensures |t| <= |s| && (t != s ==> |t| < |s|)
  {
  }

  /** Whatever the text, a read that gives an event takes something from the stream and
      leaves it at its end or at the start of a record. */
  lemma {:induction false} ReadStopsAtRecord(cfg: Settings, known: map<string, LogField>, format: seq<LogField>, s: string)
    requires ReadEvent(cfg, known, format, s).Got?
    ensures var rest := ReadEvent(cfg, known, format, s).rest; |rest| < |s| && AtNextRecord(cfg, s, rest)
  {
    hide SkipVoids, ReadFields, SkipRecord, SkipJoin, Suffix, AtNextRecord;
    var skipped := SkipVoids(cfg, known, format, s);
    VoidsLeaveSuffix(cfg, known, format, s);
    FieldsLeaveSuffix(cfg, skipped.format, skipped.rest, map[]);
    SkippingStops(cfg, s, skipped.rest, ReadFields(cfg, skipped.format, skipped.rest, map[]).1);
  }

  lemma {:induction false} SkipsText(cfg: Settings, text: string, rest: string)
    requires (forall c <- text :: c !in cfg.eventSplit) && AtRecordEnd(cfg, rest)
    ensures SkipRecord(cfg, text + rest) == rest
    decreases |text|
  {
    if text == "" {
      assert text + rest == rest;
    } else {
      assert text[0] !in cfg.eventSplit;
      assert (text + rest)[1..] == text[1..] + rest;
      SkipsText(cfg, text[1..], rest);
    }
  }

  /** Skipping field separators stays inside a text that has another character. */
  lemma {:induction false} SkipSplitStays(cfg: Settings, text: string, rest: string) returns (left: string)
    requires exists c <- text :: c !in cfg.fieldSplit
    ensures SkipSplit(cfg, text + rest) == left + rest && left != "" && |left| <= |text| && left == text[|text| - |left|..]
    decreases |text|
  {
    if text[0] in cfg.fieldSplit {
      assert (text + rest)[1..] == text[1..] + rest;
      left := SkipSplitStays(cfg, text[1..], rest);
    } else {
      left := text;
    }
  }

  /** What may follow the columns of a record: nothing, or further text behind a field join,
      which must not make its end look like another field separator. */
  ghost predicate SurplusOk(cfg: Settings, surplus: string, join: string) {
    && (forall c <- surplus :: c !in cfg.eventSplit)
    && (cfg.consumeDelims && join != "" ==> join[0] !in cfg.fieldSplit || exists c <- surplus :: c !in cfg.fieldSplit)
  }

  /** Where the reader is behind the field join of surplus columns. */
  lemma {:induction false} AfterFieldJoin(cfg: Settings, surplus: string, join: string, more: string) returns (left: string)
    requires ConfigOk(cfg) && SurplusOk(cfg, surplus, join) && (join == "" ==> more == "")
    ensures var s := cfg.fieldJoin + (surplus + (join + more));
            (if cfg.consumeDelims then SkipSplit(cfg, s) else s[1..]) == left + (join + more)
    ensures forall c <- left :: c !in cfg.eventSplit
  {
    var next := join + more;
    if !cfg.consumeDelims {
      left := surplus;
      assert (cfg.fieldJoin + (surplus + next))[1..] == surplus + next;
    } else {
      SkipSplitJoin(cfg, cfg.fieldJoin, surplus + next);
      if c :| c in surplus && c !in cfg.fieldSplit {
        left := SkipSplitStays(cfg, surplus, next);
      } else {
        SkipSplitJoin(cfg, surplus, next);
        left := "";
        assert "" + next == next;
      }
    }
  }

  /** Text behind the columns of a record: none, or a field join and surplus columns. */
  function Behind(cfg: Settings, surplus: Option<string>): string {
    if surplus.None? then "" else cfg.fieldJoin + surplus.value
  }

  lemma JoinIsNoEnd(cfg: Settings, more: string)
    requires ConfigOk(cfg)
    ensures var s := cfg.fieldJoin + more; s != "" && Splits(cfg, s[0]) && !AtRecordEnd(cfg, s)
  {
    assert cfg.fieldJoin[0] in cfg.fieldJoin;
  }

  lemma EndSplits(cfg: Settings, s: string)
    ensures AtRecordEnd(cfg, s) ==> s == "" || Splits(cfg, s[0])
  {
  }

  /** The columns of a record with nothing behind them. */
  lemma {:induction false} ColumnsAlone(cfg: Settings, format: seq<LogField>, e: Event, bare: seq<bool>, next: string)
    requires ConfigOk(cfg) && format != [] && ColumnsOk(cfg, format, e, bare) && Covers(format, e) && AtRecordEnd(cfg, next)
    ensures ReadFields(cfg, format, Columns(cfg, format, e, bare) + next, map[]) == (e, next)
  {
    hide ReadFields, Columns, ColumnsOk, Covers, Filled, SkipSplit, ConfigOk;
    assert format + [] == format;
    FilledIsWhole(format, e);
    EndSplits(cfg, next);
    ReadColumnsBack(cfg, format, e, bare, [], map[], next);
  }

  /** The columns of a record with a field join and further text behind them. */
  lemma {:induction false} ColumnsAndMore(cfg: Settings, format: seq<LogField>, e: Event, bare: seq<bool>,
                                          surplus: string, join: string, more: string) returns (left: string)
    requires ConfigOk(cfg) && format != [] && ColumnsOk(cfg, format, e, bare) && Covers(format, e)
    requires SurplusOk(cfg, surplus, join) && (join == "" ==> more == "")
    ensures ReadFields(cfg, format, Columns(cfg, format, e, bare) + (cfg.fieldJoin + (surplus + (join + more))), map[])
         == (e, left + (join + more))
    ensures forall c <- left :: c !in cfg.eventSplit
  {
    hide ReadFields, Columns, ColumnsOk, Covers, Filled, SkipSplit, SurplusOk, AtRecordEnd;
    assert format + [] == format;
    FilledIsWhole(format, e);
    left := AfterFieldJoin(cfg, surplus, join, more);
    JoinIsNoEnd(cfg, surplus + (join + more));
    hide ConfigOk;
    ReadColumnsBack(cfg, format, e, bare, [], map[], cfg.fieldJoin + (surplus + (join + more)));
    NoFields(cfg, left + (join + more), e);
  }

  /** The columns of a record, and the field join behind them if there is one. */
  lemma {:induction false} RecordColumns(cfg: Settings, format: seq<LogField>, e: Event, bare: seq<bool>,
                                         surplus: Option<string>, join: string, more: string) returns (left: string)
    requires ConfigOk(cfg) && format != [] && ColumnsOk(cfg, format, e, bare) && Covers(format, e)
    requires surplus.Some? ==> SurplusOk(cfg, surplus.value, join)
    requires AtRecordEnd(cfg, join + more) && (join == "" ==> more == "")
    ensures ReadFields(cfg, format, Columns(cfg, format, e, bare) + (Behind(cfg, surplus) + (join + more)), map[]) == (e, left + (join + more))
    ensures forall c <- left :: c !in cfg.eventSplit
  {
    hide ReadFields, Columns, ColumnsOk, Covers, SurplusOk, ConfigOk;
    if surplus.Some? {
      assert Behind(cfg, surplus) + (join + more) == cfg.fieldJoin + (surplus.value + (join + more));
      left := ColumnsAndMore(cfg, format, e, bare, surplus.value, join, more);
    } else {
      left := "";
      assert Behind(cfg, surplus) + (join + more) == join + more && left + (join + more) == join + more;
      ColumnsAlone(cfg, format, e, bare, join + more);
    }
  }

  /** A record gives its event, with or without the delimiters that are optional, whatever
      surplus columns follow, and whether or not a line end closes it; the stream is then
      at the next record. */
  lemma {:induction false} RecordReadsBack(cfg: Settings, known: map<string, LogField>, format: seq<LogField>, e: Event, bare: seq<bool>,
                                           surplus: Option<string>, join: string, more: string)
    requires ConfigOk(cfg) && format != [] && ColumnsOk(cfg, format, e, bare) && Covers(format, e)
    requires surplus.Some? ==> SurplusOk(cfg, surplus.value, join)
    requires (forall c <- join :: c in cfg.eventSplit) && (more == "" || (join != "" && more[0] !in cfg.eventSplit))
    requires Peek(Columns(cfg, format, e, bare)) !in cfg.commentChars
    ensures ReadEvent(cfg, known, format, Columns(cfg, format, e, bare) + (Behind(cfg, surplus) + (join + more))) == Got(e, format, more)
  {
    hide ReadFields, Columns, ColumnOk, ConfigOk, Covers, SurplusOk, Behind;
    var s := Columns(cfg, format, e, bare) + (Behind(cfg, surplus) + (join + more));
    ColumnsStart(cfg, format, e, bare);
    assert s[0] == Columns(cfg, format, e, bare)[0];
    var left := RecordColumns(cfg, format, e, bare, surplus, join, more);
    SkipsText(cfg, left, join + more);
    SkipEventJoin(cfg, join, more);
  }

  /** A record may break off behind the delimiter of a column: what the format expects
      after it is not read, and the rest of the record is skipped. */
  lemma {:induction false} BrokenRecordReadsBack(cfg: Settings, known: map<string, LogField>, format: seq<LogField>, e: Event, bare: seq<bool>,
                                                 extra: seq<LogField>, junk: string, join: string, more: string)
    requires ConfigOk(cfg) && format != [] && ColumnsOk(cfg, format, e, bare) && Closed(format[|format| - 1], bare[|format| - 1])
    requires junk != "" && junk[0] !in cfg.fieldSplit && forall c <- junk :: c !in cfg.eventSplit
    requires (forall c <- join :: c in cfg.eventSplit) && (more == "" || (join != "" && more[0] !in cfg.eventSplit))
    requires Peek(Columns(cfg, format, e, bare)) !in cfg.commentChars
    ensures ReadEvent(cfg, known, format + extra, Columns(cfg, format, e, bare) + (junk + (join + more)))
         == Got(Filled(map[], format, e), format + extra, more)
  {
    hide ReadFields, Columns, ColumnOk, ConfigOk, Filled, Closed;
    var s := Columns(cfg, format, e, bare) + (junk + (join + more));
    ColumnsStart(cfg, format, e, bare);
    assert s[0] == Columns(cfg, format, e, bare)[0];
    assert junk[0] in junk && (junk + (join + more))[0] == junk[0];
    ReadColumnsBack(cfg, format, e, bare, extra, map[], junk + (join + more));
    SkipsText(cfg, junk, join + more);
    SkipEventJoin(cfg, join, more);
  }

  lemma NoFields(cfg: Settings, s: string, e: Event)
    ensures ReadFields(cfg, [], s, e) == (e, s)
  {
  }

  // ------------------------------------------------- headers, other formats

  function PrintNames(format: seq<LogField>): string {
    if format == [] then "" else " " + (format[0].name + PrintNames(format[1..]))
  }

  /** writeELFHeaders; now and version are the date and the program version it prints. */
  function PrintHeaders(cfg: Settings, format: seq<LogField>, now: string, version: string): string {
    ("#Version: 1.0" + cfg.eventJoin) + (("#Date: " + now + cfg.eventJoin)
    + (("#Software: Pion v" + version + cfg.eventJoin) + (FIELDS_HEADER + PrintNames(format) + cfg.eventJoin)))
  }

  ghost predicate LineOk(cfg: Settings, line: string) {
    line != "" && line[0] in cfg.commentChars && !Splits(cfg, line[0]) && forall c <- line :: c !in cfg.eventSplit
  }

  ghost predicate NamesOk(cfg: Settings, known: map<string, LogField>, format: seq<LogField>) {
    && ' ' !in cfg.eventSplit
    && forall i | 0 <= i < |format| ::
      && format[i].name in known && known[format[i].name] == format[i]
      && format[i].name != "" && '\0' !in format[i].name
      && forall j | 0 <= j < |format[i].name| :: format[i].name[j] != ' ' && format[i].name[j] !in cfg.eventSplit
  }

  lemma {:induction false} CommentReads(cfg: Settings, line: string, rest: string)
    requires (forall c <- line :: c !in cfg.eventSplit) && AtRecordEnd(cfg, rest)
    ensures CommentText(cfg, line + rest) == line
    decreases |line|
  {
    if line == "" {
      assert line + rest == rest;
    } else {
      assert line[0] !in cfg.eventSplit;
      assert (line + rest)[1..] == line[1..] + rest;
      CommentReads(cfg, line[1..], rest);
    }
  }

  /** Empty fields and empty records are no event. */
  lemma {:induction false} SkipVoidJoin(cfg: Settings, known: map<string, LogField>, format: seq<LogField>, join: string, rest: string)
    requires forall c <- join :: Splits(cfg, c)
    ensures SkipVoids(cfg, known, format, join + rest) == SkipVoids(cfg, known, format, rest)
    decreases |join|
  {
    if join == "" {
      assert join + rest == rest;
    } else {
      assert Splits(cfg, join[0]);
      assert (join + rest)[1..] == join[1..] + rest;
      SkipVoidJoin(cfg, known, format, join[1..], rest);
    }
  }

  lemma {:induction false} SkipLine(cfg: Settings, known: map<string, LogField>, format: seq<LogField>, line: string, rest: string)
    requires ConfigOk(cfg) && LineOk(cfg, line) && AfterComment(cfg, known, format, line).Some?
    ensures SkipVoids(cfg, known, format, line + cfg.eventJoin + rest)
         == SkipVoids(cfg, known, AfterComment(cfg, known, format, line).value, rest)
  {
    var s := line + cfg.eventJoin + rest;
    assert s == line + (cfg.eventJoin + rest);
    assert cfg.eventJoin[0] in cfg.eventSplit;
    CommentReads(cfg, line, cfg.eventJoin + rest);
    assert s[|line|..] == cfg.eventJoin + rest;
    SkipVoidJoin(cfg, known, AfterComment(cfg, known, format, line).value, cfg.eventJoin, rest);
  }

  lemma {:induction false} NameReads(cfg: Settings, name: string, rest: string)
    requires forall i | 0 <= i < |name| :: name[i] != ' ' && name[i] !in cfg.eventSplit
    requires AtRecordEnd(cfg, rest) || rest[0] == ' '
    ensures NameOf(cfg, name + rest) == name
    decreases |name|
  {
    if name == "" {
      assert name + rest == rest;
    } else {
      assert (name + rest)[1..] == name[1..] + rest;
      NameReads(cfg, name[1..], rest);
    }
  }

  lemma {:induction false} SpacesAreSkipped(spaces: string, s: string)
    requires (forall c <- spaces :: c == ' ') && (s == "" || s[0] != ' ')
    ensures SkipSpaces(spaces + s) == s
    decreases |spaces|
  {
    if spaces == "" {
      assert spaces + s == s;
    } else {
      assert spaces[0] in spaces && (spaces + s)[1..] == spaces[1..] + s;
      assert forall c <- spaces[1..] :: c in spaces;
      SpacesAreSkipped(spaces[1..], s);
    }
  }

  /** The name at the front of a header text is looked up, however many spaces stand before
      it, and what follows its space is read on; an unknown name makes the format bad. */
  lemma {:induction false} NameIsLookedUp(cfg: Settings, known: map<string, LogField>, spaces: string, name: string, rest: string)
    requires (forall c <- spaces :: c == ' ') && ' ' !in cfg.eventSplit
    requires name != "" && forall j | 0 <= j < |name| :: name[j] != ' ' && name[j] !in cfg.eventSplit
    requires rest == "" || rest[0] == ' '
    ensures ParseFormat(cfg, known, spaces + (name + rest)) ==
            if name !in known then None
            else if rest == "" then Some([known[name]]) else Prepended([known[name]], ParseFormat(cfg, known, rest[1..]))
  {
    var s := name + rest;
    assert s[0] == name[0];
    SpacesAreSkipped(spaces, s);
    assert spaces != "" ==> (spaces + s)[0] == ' ';
    assert spaces == "" ==> spaces + s == s;
    NameReads(cfg, name, rest);
    assert s[|name|..] == rest;
  }

  lemma {:induction false} NamesOkParts(cfg: Settings, known: map<string, LogField>, format: seq<LogField>)
    requires format != [] && NamesOk(cfg, known, format)
    ensures NamesOk(cfg, known, format[1..]) && ' ' !in cfg.eventSplit
    ensures var f := format[0];
            && f.name in known && known[f.name] == f && f.name != ""
            && forall j | 0 <= j < |f.name| :: f.name[j] != ' ' && f.name[j] !in cfg.eventSplit
  {
  }

  lemma PrintedNames(format: seq<LogField>)
    requires format != []
    ensures PrintNames(format) != "" && PrintNames(format)[0] == ' '
    ensures PrintNames(format)[1..] == format[0].name + PrintNames(format[1..])
    ensures PrintNames(format[1..]) == "" <==> |format| == 1
    ensures |format| > 1 ==> PrintNames(format[1..])[0] == ' '
  {
  }

  lemma PrependedFirst(format: seq<LogField>)
    requires format != []
    ensures Prepended([format[0]], Some(format[1..])) == Some(format)
  {
    assert format == [format[0]] + format[1..];
  }

  /** The field names of a header give back the format they were printed from. */
  lemma {:induction false} NamesReadBack(cfg: Settings, known: map<string, LogField>, format: seq<LogField>)
    requires format != [] && NamesOk(cfg, known, format)
    ensures ParseFormat(cfg, known, PrintNames(format)[1..]) == Some(format)
    ensures PrintNames(format)[0] == ' '
    decreases |format|
  {
    var name, rest := format[0].name, PrintNames(format[1..]);
    hide ParseFormat, NamesOk, PrintNames, Prepended;
    PrintedNames(format);
    NamesOkParts(cfg, known, format);
    NameIsLookedUp(cfg, known, "", name, rest);
    assert "" + (name + rest) == name + rest;
    if |format| > 1 {
      NamesReadBack(cfg, known, format[1..]);
      PrependedFirst(format);
    } else {
      assert format == [format[0]];
    }
  }

  lemma {:induction false} NamesHaveNoNull(cfg: Settings, known: map<string, LogField>, format: seq<LogField>)
    requires NamesOk(cfg, known, format)
    ensures '\0' !in PrintNames(format)
    decreases |format|
  {
    if format != [] {
      NamesHaveNoNull(cfg, known, format[1..]);
    }
  }

  function VersionLine(): string { "#Version: 1.0" }

  function DateLine(now: string): string { "#Date: " + now }

  function SoftwareLine(version: string): string { "#Software: Pion v" + version }

  function FieldsLine(format: seq<LogField>): string { FIELDS_HEADER + PrintNames(format) }

  ghost predicate HeadersOk(cfg: Settings, known: map<string, LogField>, format: seq<LogField>, now: string, version: string) {
    && ConfigOk(cfg) && cfg.handleElf && format != [] && NamesOk(cfg, known, format)
    && LineOk(cfg, VersionLine()) && LineOk(cfg, DateLine(now)) && LineOk(cfg, SoftwareLine(version))
    && LineOk(cfg, FieldsLine(format)) && |FieldsLine(format)| <= READ_BUFFER_SIZE
  }

  /** A comment other than a #Fields: header changes nothing, and without support for ELF
      headers none does; of a comment only what fits into the buffer counts. */
  lemma {:induction false} OtherComment(cfg: Settings, known: map<string, LogField>, format: seq<LogField>, line: string)
    ensures !cfg.handleElf || !(FIELDS_HEADER <= line) ==> AfterComment(cfg, known, format, line) == Some(format)
    ensures |line| > READ_BUFFER_SIZE ==>
              AfterComment(cfg, known, format, line) == AfterComment(cfg, known, format, line[..READ_BUFFER_SIZE])
  {
    hide ParseFormat, CString;
    assert FIELDS_HEADER <= line[..Min(|line|, READ_BUFFER_SIZE)] <==> FIELDS_HEADER <= line;
    if |line| > READ_BUFFER_SIZE {
      var cut := line[..READ_BUFFER_SIZE];
      assert line[..Min(|line|, READ_BUFFER_SIZE)] == cut == cut[..Min(|cut|, READ_BUFFER_SIZE)];
    }
  }

  lemma {:induction false} FieldsComment(cfg: Settings, known: map<string, LogField>, mine: seq<LogField>, format: seq<LogField>)
    requires cfg.handleElf && format != [] && NamesOk(cfg, known, format) && |FieldsLine(format)| <= READ_BUFFER_SIZE
    ensures AfterComment(cfg, known, mine, FieldsLine(format)) == Some(format)
  {
    hide ParseFormat, NamesOk;
    var line := FieldsLine(format);
    var names := PrintNames(format)[1..];
    assert line[..|line|] == line;
    NamesReadBack(cfg, known, format);
    assert line[|FIELDS_HEADER| + 1..] == names;
    NamesHaveNoNull(cfg, known, format);
    CStringWhole(names);
  }

  /** Whatever format a reader starts with, behind the headers it has the writer's. */
  lemma {:induction false} HeadersSetFormat(cfg: Settings, known: map<string, LogField>, mine: seq<LogField>, format: seq<LogField>,
                         now: string, version: string, rest: string)
    requires HeadersOk(cfg, known, format, now, version)
    ensures SkipVoids(cfg, known, mine, PrintHeaders(cfg, format, now, version) + rest)
         == SkipVoids(cfg, known, format, rest)
  {
    hide SkipVoids, AfterComment, NamesOk;
    var (l1, l2, l3, l4) := (VersionLine(), DateLine(now), SoftwareLine(version), FieldsLine(format));
    var j := cfg.eventJoin;
    assert FIELDS_HEADER[1] == 'F' && l1[1] == 'V' && l2[1] == 'D' && l3[1] == 'S';
    OtherComment(cfg, known, mine, l1);
    OtherComment(cfg, known, mine, l2);
    OtherComment(cfg, known, mine, l3);
    FieldsComment(cfg, known, mine, format);
    var r4 := l4 + j + rest;
    var r3 := l3 + j + r4;
    var r2 := l2 + j + r3;
    assert PrintHeaders(cfg, format, now, version) + rest == l1 + j + r2;
    SkipLine(cfg, known, mine, l1, r2);
    SkipLine(cfg, known, mine, l2, r3);
    SkipLine(cfg, known, mine, l3, r4);
    SkipLine(cfg, known, mine, l4, rest);
  }

  /** A stream with headers is read back by a reader whose own columns are in any order. */
  lemma {:induction false} OtherOrderReadsBack(cfg: Settings, known: map<string, LogField>, mine: seq<LogField>, format: seq<LogField>,
                            now: string, version: string, es: seq<Event>)
    requires HeadersOk(cfg, known, format, now, version) && es != []
    requires forall i | 0 <= i < |es| :: RecordOk(cfg, format, es[i])
    ensures ReadsAs(cfg, known, mine, PrintHeaders(cfg, format, now, version) + PrintRecords(cfg, format, es), es)
  {
    hide SkipVoids;
    HeadersSetFormat(cfg, known, mine, format, now, version, PrintRecords(cfg, format, es));
    StreamReadsBack(cfg, known, format, es);
  }
}
