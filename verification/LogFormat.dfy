/** The format of log records: what LogCodec prints for an event, and what it makes of
    a stretch of text. A character sequence stands for what is left of a stream. */
module LogFormat {
  import opened HttpTypes
  import opened UrlCodec

  const READ_BUFFER_SIZE := 1024 * 128
  const FIELDS_HEADER := "#Fields:"

  /** What the stream interface reports at its end, once cast to a character. */
  const EOF_CHAR: char := 255 as char

  type Term = nat
  type Event = map<Term, string>

  /** A field holding text; '\0' stands for a missing delimiter. */
  datatype LogField = LogField(
    name: string, term: Term, delimStart: char, delimEnd: char, optDelims: bool,
    urlencode: bool, escape: char, emptyVal: string)

  datatype Settings = Settings(
    eventSplit: string, eventJoin: string, commentChars: string,
    fieldSplit: string, fieldJoin: string, consumeDelims: bool, handleElf: bool)

  // --------------------------------------------------------------- writing

  /** The part of a string a C function sees. */
  function CString(s: string): string {
    if s == "" || s[0] == '\0' then "" else [s[0]] + CString(s[1..])
  }

  /** The text of a value before delimiters are escaped. */
  function FieldText(f: LogField, value: string): string {
    if f.urlencode then UrlEncode(CString(value)) else value
  }

  function Escaped(f: LogField, text: string): string {
    if text == "" then ""
    else (if text[0] == f.delimEnd then [f.escape, text[0]] else [text[0]]) + Escaped(f, text[1..])
  }

  function Delimited(f: LogField, text: string): string {
    (if f.delimStart != '\0' then [f.delimStart] else "")
    + (text + if f.delimEnd != '\0' then [f.delimEnd] else "")
  }

  function PrintValue(f: LogField, value: string): string {
    var text := FieldText(f, value);
    Delimited(f, if text == "" then f.emptyVal else Escaped(f, text))
  }

  function PrintField(f: LogField, e: Event): string {
    if f.term in e then PrintValue(f, e[f.term]) else Delimited(f, f.emptyVal)
  }

  function PrintRecord(cfg: Settings, format: seq<LogField>, e: Event): string {
    if format == [] then cfg.eventJoin
    else
      var join := if |format| > 1 then cfg.fieldJoin else "";
      PrintField(format[0], e) + (join + PrintRecord(cfg, format[1..], e))
  }

  // --------------------------------------------------------------- reading

  function Peek(s: string): char { if s == "" then EOF_CHAR else s[0] }

  function Tail(s: string): string { if s == "" then "" else s[1..] }

  /** Reads field contents into the buffer up to the end of the field. */
  function ScanField(cfg: Settings, delimEnd: char, escape: char, buf: string, s: string): (string, string)
    decreases |s|
  {
    var c := Peek(s);
    var atEnd := delimEnd != '\0' && c == delimEnd;
    if atEnd && buf != "" && buf[|buf| - 1] == escape then
      ScanFieldOn(cfg, delimEnd, escape, Pushed(buf[..|buf| - 1], c), s)
    else if atEnd then (buf, Tail(s))
    else if delimEnd == '\0' && (c in cfg.fieldSplit || c in cfg.eventSplit) then (buf, s)
    else ScanFieldOn(cfg, delimEnd, escape, Pushed(buf, c), s)
  }

  function ScanFieldOn(cfg: Settings, delimEnd: char, escape: char, buf: string, s: string): (string, string)
    decreases |s|, 0
  {
    if |s| <= 1 then (buf, "") else ScanField(cfg, delimEnd, escape, buf, s[1..])
  }

  /** A full buffer takes no more characters. */
  function Pushed(buf: string, c: char): string {
    if |buf| < READ_BUFFER_SIZE then buf + [c] else buf
  }

  function ReadValue(f: LogField, text: string): string {
    if f.urlencode then UrlDecode(text) else text
  }

  /** Only values that are not empty are set. */
  function SetField(f: LogField, buf: string, e: Event): Event {
    var text := CString(buf);
    if text != "" && text != f.emptyVal then e[f.term := ReadValue(f, text)] else e
  }

  /** Skips the delimiters between two fields. */
  function SkipSplit(cfg: Settings, s: string): string {
    if s != "" && s[0] in cfg.fieldSplit then SkipSplit(cfg, s[1..]) else s
  }

  predicate AtRecordEnd(cfg: Settings, s: string) { s == "" || s[0] in cfg.eventSplit }

  /** Reads the fields of a record; stops early where the record does, or at a field
      that lacks its delimiter. */
  function ReadFields(cfg: Settings, format: seq<LogField>, s: string, e: Event): (Event, string)
    decreases |format|
  {
    if format == [] || AtRecordEnd(cfg, s) then (e, s)
    else
      var f := format[0];
      var delimited := f.delimStart != '\0' && s[0] == f.delimStart;
      if f.delimStart != '\0' && !delimited && !f.optDelims then (e, s)
      else
        var delimEnd := if f.delimStart != '\0' && !delimited then '\0' else f.delimEnd;
        var (buf, rest) := ScanField(cfg, delimEnd, f.escape, "", if delimited then s[1..] else s);
        var e1 := SetField(f, buf, e);
        if AtRecordEnd(cfg, rest) || rest[0] !in cfg.fieldSplit then (e1, rest)
        else ReadFields(cfg, format[1..], if cfg.consumeDelims then SkipSplit(cfg, rest) else rest[1..], e1)
  }

  function SkipRecord(cfg: Settings, s: string): string {
    if AtRecordEnd(cfg, s) then s else SkipRecord(cfg, s[1..])
  }

  function SkipJoin(cfg: Settings, s: string): string {
    if s != "" && s[0] in cfg.eventSplit then SkipJoin(cfg, s[1..]) else s
  }

  // ------------------------------------- empty records, comments, formats

  /** The text of a comment, without its line end. */
  function CommentText(cfg: Settings, s: string): string {
    if AtRecordEnd(cfg, s) then "" else [s[0]] + CommentText(cfg, s[1..])
  }

  function SkipSpaces(s: string): string {
    if s != "" && s[0] == ' ' then SkipSpaces(s[1..]) else s
  }

  /** The field name at the start of a text. */
  function NameOf(cfg: Settings, s: string): string {
    if AtRecordEnd(cfg, s) || s[0] == ' ' then "" else [s[0]] + NameOf(cfg, s[1..])
  }

  lemma NameIsPrefix(cfg: Settings, s: string)
    ensures NameOf(cfg, s) <= s
  {
  }

  lemma SkipSpacesIsSuffix(s: string)
    ensures |SkipSpaces(s)| <= |s|
  {
  }

  /** changeELFFormat: the fields a text names, or nothing if one of them is unknown. */
  function ParseFormat(cfg: Settings, known: map<string, LogField>, s: string): Option<seq<LogField>>
    decreases |s|
  {
    if AtRecordEnd(cfg, s) then Some([])
    else
      SkipSpacesIsSuffix(s);
      var t := SkipSpaces(s);
      var name := NameOf(cfg, t);
      NameIsPrefix(cfg, t);
      var rest := t[|name|..];
      if name !in known then None
      else if AtRecordEnd(cfg, rest) then Some([known[name]])
      else
        Prepended([known[name]], ParseFormat(cfg, known, rest[1..]))
  }

  function Prepended(fields: seq<LogField>, more: Option<seq<LogField>>): Option<seq<LogField>> {
    if more.None? then None else Some(fields + more.value)
  }

  /** The format after a comment: a #Fields: header replaces it. */
  function AfterComment(cfg: Settings, known: map<string, LogField>, format: seq<LogField>, comment: string)
    : Option<seq<LogField>>
  {
    var text := comment[..Min(|comment|, READ_BUFFER_SIZE)];
    if cfg.handleElf && FIELDS_HEADER <= text then
      ParseFormat(cfg, known, CString(text[Min(|text|, |FIELDS_HEADER| + 1)..]))
    else Some(format)
  }

  lemma CommentIsPrefix(cfg: Settings, s: string)
    ensures CommentText(cfg, s) <= s
  {
  }

  datatype Skipped = Skipped(format: seq<LogField>, rest: string) | BadFormat

  /** consumeVoidsAndComments. */
  function SkipVoids(cfg: Settings, known: map<string, LogField>, format: seq<LogField>, s: string): Skipped
    decreases |s|
  {
    if s == "" then Skipped(format, s)
    else if s[0] in cfg.fieldSplit || s[0] in cfg.eventSplit then SkipVoids(cfg, known, format, s[1..])
    else if s[0] in cfg.commentChars then
      var comment := CommentText(cfg, s);
      CommentIsPrefix(cfg, s);
      var next := AfterComment(cfg, known, format, comment);
      if next.None? then BadFormat else SkipVoids(cfg, known, next.value, s[|comment|..])
    else Skipped(format, s)
  }

  /** The outcome of LogCodec::read: an event, the end of the stream, or an exception. */
  datatype ReadResult =
    | Got(event: Event, format: seq<LogField>, rest: string)
    | NoMore(format: seq<LogField>)
    | Thrown

  function ReadEvent(cfg: Settings, known: map<string, LogField>, format: seq<LogField>, s: string): ReadResult {
    match SkipVoids(cfg, known, format, s)
    case BadFormat => Thrown
    case Skipped(format1, t) =>
      if t == "" then NoMore(format1)
      else
        var (e, rest) := ReadFields(cfg, format1, t, map[]);
        Got(e, format1, SkipJoin(cfg, SkipRecord(cfg, rest)))
  }
}
