/** URL encoding, and the query strings built from it. */
module UrlCodec {
  import opened HttpTypes

  const QUERY_NAME_MAX := 1024
  const QUERY_VALUE_MAX := 1024 * 1024

  // ------------------------------------------------- url_encode, url_decode

  predicate NeedsEscape(c: char) {
    || !(32 < c as int < 127)
    || c == '$' || c == '&' || c == '+' || c == ',' || c == '/' || c == ':'
    || c == ';' || c == '=' || c == '?' || c == '@' || c == '"' || c == '<'
    || c == '>' || c == '#' || c == '%' || c == '{' || c == '}' || c == '|'
    || c == '\\' || c == '^' || c == '~' || c == '[' || c == ']' || c == '`'
  }

  /** What is not escaped: letters, digits and eight marks. */
  lemma EscapedExactlyWhen(c: char)
    ensures NeedsEscape(c) <==> !IsLetter(c) && !IsDigit(c) && c !in "!'()*-._"
  {
  }

  /** printf's "X" for one digit. */
  function UpperHexDigit(d: nat): (c: char)
    requires d < 16
    ensures IsHexDigit(c) && HexDigitValue(c) == d && 48 <= c as int <= 70
  {
    if d < 10 then '0' + d as char else 'A' + (d - 10) as char
  }

  function EncodeByte(c: char): string {
    if NeedsEscape(c) then ['%', UpperHexDigit(c as int % 256 / 16), UpperHexDigit(c as int % 16)] else [c]
  }

  function UrlEncode(s: string): string {
    if s == "" then "" else EncodeByte(s[0]) + UrlEncode(s[1..])
  }

  /** strtol on two characters in base 16, cast to a byte. */
  function TwoDigits(a: char, b: char): (c: char)
    ensures IsByte(c)
  {
    var low := if IsHexDigit(b) then HexDigitValue(b) else 0;
    if IsHexDigit(a) then
      (if IsHexDigit(b) then 16 * HexDigitValue(a) + low else HexDigitValue(a)) as char
    else if IsSpace(a) || a == '+' then low as char
    else if a == '-' then ((256 - low) % 256) as char
    else '\0'
  }

  /** The first decoded byte of a non-empty text, and the length of its code. */
  function DecodeByte(s: string): (r: (char, nat))
    requires s != ""
    ensures 0 < r.1 <= |s|
  {
    if s[0] == '+' then (' ', 1)
    else if s[0] == '%' && |s| > 2 then (TwoDigits(s[1], s[2]), 3)
    else (s[0], 1)
  }

  function UrlDecode(s: string): string {
    if s == "" then "" else [DecodeByte(s).0] + UrlDecode(s[DecodeByte(s).1..])
  }

  lemma EncodedByteDecodes(c: char, more: string)
    requires IsByte(c)
    ensures DecodeByte(EncodeByte(c) + more) == (c, |EncodeByte(c)|)
  {
    if NeedsEscape(c) {
      EscapeDecodes(c, more);
    }
  }

  lemma EscapeDecodes(c: char, more: string)
    requires IsByte(c)
    ensures var (a, b) := (UpperHexDigit(c as int % 256 / 16), UpperHexDigit(c as int % 16));
            TwoDigits(a, b) == c && DecodeByte(['%', a, b] + more) == (c, 3)
  {
    hide NeedsEscape, UpperHexDigit, HexDigitValue, TwoDigits;
    var n := c as int;
    assert n % 256 == n && 16 * (n / 16) + n % 16 == n;
    TwoDigitsSpell(UpperHexDigit(n / 16), UpperHexDigit(n % 16));
  }

  lemma TwoDigitsSpell(a: char, b: char)
    requires IsHexDigit(a) && IsHexDigit(b)
    ensures TwoDigits(a, b) as int == 16 * HexDigitValue(a) + HexDigitValue(b)
  {
  }

  lemma {:induction false} UrlRoundTrip(s: string)
    requires AllBytes(s)
    ensures UrlDecode(UrlEncode(s)) == s
  {
    if s != "" {
      assert IsByte(s[0]);
      assert AllBytes(s[1..]);
      UrlRoundTrip(s[1..]);
      EncodedByteDecodes(s[0], UrlEncode(s[1..]));
      assert UrlEncode(s)[|EncodeByte(s[0])|..] == UrlEncode(s[1..]);
    }
  }

  /** A text that may stand for a byte: the byte itself, a plus sign for a space, or an escape
      with hexadecimal digits in either case. */
  ghost predicate StandsFor(t: string, c: char) {
    || (t == [c] && c != '+' && c != '%')
    || (t == "+" && c == ' ')
    || (|t| == 3 && t[0] == '%' && IsHexDigit(t[1]) && IsHexDigit(t[2])
        && c as int == 16 * HexDigitValue(t[1]) + HexDigitValue(t[2]))
  }

  lemma StandInDecodes(t: string, c: char, more: string)
    requires StandsFor(t, c)
    ensures t != "" && DecodeByte(t + more) == (c, |t|)
  {
  }

  /** However a client encodes a text, it is decoded to the text. */
  lemma {:induction false} AnyEncodingDecodes(s: string, pieces: seq<string>)
    requires |pieces| == |s| && forall i | 0 <= i < |s| :: StandsFor(pieces[i], s[i])
    ensures UrlDecode(Flatten(pieces)) == s
    decreases |s|
  {
    hide StandsFor, DecodeByte;
    if s != "" {
      var more := Flatten(pieces[1..]);
      StandInDecodes(pieces[0], s[0], more);
      assert (pieces[0] + more)[|pieces[0]|..] == more;
      AnyEncodingDecodes(s[1..], pieces[1..]);
    }
  }

  /** strtol(s, 0, 16): white space, a sign and digits, as far as they go. */
  function StrToLong(s: string): int {
    var t := TrimLeft(s);
    var signed := t != "" && (t[0] == '-' || t[0] == '+');
    var n: int := HexValue(HexPrefix(if signed then t[1..] else t));
    if signed && t[0] == '-' then -n else n
  }

  /** Any two characters behind a percent sign are read as strtol does, to one byte. */
  lemma EscapesAreNumbers(a: char, b: char, more: string)
    ensures UrlDecode(['%', a, b] + more) == [(StrToLong([a, b]) % 256) as char] + UrlDecode(more)
  {
    var s := ['%', a, b] + more;
    assert s[3..] == more;
    TwoCharacters(a, b);
  }

  lemma TwoCharacters(a: char, b: char)
    ensures TwoDigits(a, b) as int == StrToLong([a, b]) % 256
  {
    hide HexDigitValue, HexValue, HexPrefix, TrimLeft;
    assert [a, b][1..] == [b] && [b][1..] == "";
    PrefixValues(a, b);
    TrimTwo(a, b);
  }

  lemma TrimTwo(a: char, b: char)
    ensures TrimLeft([a, b]) == if IsSpace(a) then (if IsSpace(b) then "" else [b]) else [a, b]
  {
    assert [a, b][1..] == [b] && [b][1..] == "";
    assert TrimLeft([b]) == if IsSpace(b) then "" else [b];
  }

  lemma PrefixValues(a: char, b: char)
    ensures HexValue(HexPrefix("")) == 0
    ensures HexValue(HexPrefix([b])) == if IsHexDigit(b) then HexDigitValue(b) else 0
    ensures HexValue(HexPrefix([a, b])) ==
            if !IsHexDigit(a) then 0 else if !IsHexDigit(b) then HexDigitValue(a) else 16 * HexDigitValue(a) + HexDigitValue(b)
  {
    assert [b][1..] == "" && [a, b][1..] == [b];
    assert HexPrefix([b]) == if IsHexDigit(b) then [b] else "";
    assert HexPrefix([a, b]) == if !IsHexDigit(a) then "" else if IsHexDigit(b) then [a, b] else [a];
    assert [a][..0] == "" && [b][..0] == "" && [a, b][..1] == [a];
  }

  /** A percent sign without two characters behind it stands for itself. */
  lemma ShortEscapeIsKept(t: string)
    requires |t| < 2
    ensures UrlDecode("%" + t) == "%" + UrlDecode(t)
  {
    assert ("%" + t)[1..] == t;
  }

  /** Encoded text is printable and holds none of the characters with a meaning in a URL,
      save the percent sign of an escape. */
  lemma {:induction false} EncodedIsPlain(s: string)
    ensures forall c <- UrlEncode(s) :: c == '%' || !NeedsEscape(c)
    ensures |s| <= |UrlEncode(s)| <= 3 * |s|
  {
    if s != "" {
      EncodedIsPlain(s[1..]);
      forall c | c in EncodeByte(s[0]) ensures c == '%' || !NeedsEscape(c) {}
    }
  }

  lemma {:induction false} UrlEncodeConcat(a: string, b: string)
    ensures UrlEncode(a + b) == UrlEncode(a) + UrlEncode(b)
  {
    hide EncodeByte;
    if a == "" {
      assert a + b == b;
      EncodeNothing(UrlEncode(b));
    } else {
      UrlEncodeConcat(a[1..], b);
      EncodeFirst(a);
      EncodeFirst(a + b);
      assert (a + b)[0] == a[0] && (a + b)[1..] == a[1..] + b;
      hide UrlEncode;
      assert EncodeByte(a[0]) + (UrlEncode(a[1..]) + UrlEncode(b)) == EncodeByte(a[0]) + UrlEncode(a[1..]) + UrlEncode(b);
    }
  }

  lemma EncodeNothing(more: string)
    ensures UrlEncode("") + more == more
  {
  }

  lemma EncodeFirst(s: string)
    requires s != ""
    ensures UrlEncode(s) == EncodeByte(s[0]) + UrlEncode(s[1..])
  {
  }

  method EncodeUrl(str: string) returns (result: string)
    ensures result == UrlEncode(str)
  {
    result := "";
    for pos := 0 to |str|
      invariant result == UrlEncode(str[..pos])
    {
      UrlEncodeConcat(str[..pos], [str[pos]]);
      assert str[..pos + 1] == str[..pos] + [str[pos]];
      assert UrlEncode([str[pos]]) == EncodeByte(str[pos]);
      if NeedsEscape(str[pos]) {
        result := result + ['%', UpperHexDigit(str[pos] as int % 256 / 16), UpperHexDigit(str[pos] as int % 16)];
      } else {
        result := result + [str[pos]];
      }
    }
    assert str[..|str|] == str;
  }

  /** Decoding goes on behind the byte at a position. */
  lemma DecodeNextByte(str: string, pos: nat, result: string)
    requires pos < |str|
    ensures var (c, n) := DecodeByte(str[pos..]);
            result + UrlDecode(str[pos..]) == result + [c] + UrlDecode(str[pos + n..])
  {
    var (c, n) := DecodeByte(str[pos..]);
    assert str[pos..][n..] == str[pos + n..];
  }

  method DecodeUrl(str: string) returns (result: string)
    ensures result == UrlDecode(str)
  {
    hide UrlDecode, TwoDigits;
    assert str[0..] == str;
    result := "";
    var pos := 0;
    while pos < |str|
      invariant pos <= |str|
      invariant UrlDecode(str) == result + UrlDecode(str[pos..])
    {
      DecodeNextByte(str, pos, result);
      if str[pos] == '+' {
        result := result + [' '];
      } else if str[pos] == '%' && pos + 2 < |str| {
        result := result + [TwoDigits(str[pos + 1], str[pos + 2])];
        pos := pos + 2;
      } else {
        result := result + [str[pos]];
      }
      pos := pos + 1;
    }
    DecodeNothing(str[pos..], result);
  }

  lemma DecodeNothing(s: string, result: string)
    requires s == ""
    ensures result + UrlDecode(s) == result
  {
  }

  // ----------------------------------------------------------- query strings

  type Pairs = seq<(string, string)>

  /** make_query_string, over the parameters in iteration order. */
  function QueryString(params: Pairs): string {
    if params == [] then ""
    else if |params| == 1 then QueryPair(params[0])
    else QueryPair(params[0]) + ("&" + QueryString(params[1..]))
  }

  function QueryPair(p: (string, string)): string {
    UrlEncode(p.0) + ("=" + UrlEncode(p.1))
  }

  lemma {:induction false} QueryStringSnoc(params: Pairs, p: (string, string))
    ensures QueryString(params + [p])
         == if params == [] then QueryPair(p) else QueryString(params) + "&" + QueryPair(p)
  {
    hide QueryPair;
    if |params| == 1 {
      assert (params + [p])[1..] == [p];
    } else if |params| > 1 {
      assert (params + [p])[1..] == params[1..] + [p];
      QueryStringSnoc(params[1..], p);
    }
  }

  lemma QueryStringEmpty()
    ensures QueryString([]) == ""
  {
  }

  method MakeQueryString(params: Pairs) returns (query: string)
    ensures query == QueryString(params)
  {
    hide QueryString, UrlEncode;
    QueryStringEmpty();
    query := "";
    for i := 0 to |params|
      invariant query == QueryString(params[..i])
    {
      assert params[..i + 1] == params[..i] + [params[i]];
      QueryStringSnoc(params[..i], params[i]);
      if i != 0 {
        query := query + "&";
      }
      var name := EncodeUrl(params[i].0);
      query := query + name;
      query := query + "=";
      var value := EncodeUrl(params[i].1);
      query := query + value;
    }
    assert params[..|params|] == params;
  }

  /** The scanner of parseURLEncoded: whether it is in a value, the name and value so
      far, and the pairs found. A failed scan keeps the pairs found before. */
  datatype Scan = Scan(inValue: bool, name: string, value: string, dict: Pairs)

  function ScanByte(s: Scan, c: char): Option<Scan> {
    if !s.inValue then
      if c == '=' then Some(s.(inValue := true))
      else if c == '&' then
        Some(if s.name != "" then s.(dict := s.dict + [(s.name, s.value)], name := "") else s)
      else if c == '\r' || c == '\n' || c == '\t' then Some(s)
      else if IsControl(c) || |s.name| >= QUERY_NAME_MAX then None
      else Some(s.(name := s.name + [c]))
    else
      if c == '&' then
        var s1 := if s.name != "" then s.(dict := s.dict + [(s.name, s.value)], name := "") else s;
        Some(s1.(value := "", inValue := false))
      else if c == '\r' || c == '\n' || c == '\t' then Some(s)
      else if IsControl(c) || |s.value| >= QUERY_VALUE_MAX then None
      else Some(s.(value := s.value + [c]))
  }

  function ScanAll(s: Scan, text: string): (bool, Pairs)
    decreases |text|
  {
    if text == "" then (true, LastPair(s))
    else
      var next := ScanByte(s, text[0]);
      if next.None? then (false, s.dict) else ScanAll(next.value, text[1..])
  }

  function LastPair(s: Scan): Pairs {
    if s.name != "" then s.dict + [(s.name, s.value)] else s.dict
  }

  function ParsePairs(text: string): (bool, Pairs) {
    ScanAll(Scan(false, "", "", []), text)
  }

  method ParseUrlEncoded(text: string) returns (ok: bool, dict: Pairs)
    ensures (ok, dict) == ParsePairs(text)
  {
    var s := Scan(false, "", "", []);
    var ptr := 0;
    while ptr < |text|
      invariant ptr <= |text| && ParsePairs(text) == ScanAll(s, text[ptr..])
    {
      var next := ScanByte(s, text[ptr]);
      if next.None? {
        return false, s.dict;
      }
      s := next.value;
      ptr := ptr + 1;
    }
    ok, dict := true, LastPair(s);
  }

  /** A name that fits into the scanner's limit once encoded, with any value that does. */
  ghost predicate Fits(p: (string, string)) {
    && AllBytes(p.0) && AllBytes(p.1) && p.0 != ""
    && |UrlEncode(p.0)| <= QUERY_NAME_MAX && |UrlEncode(p.1)| <= QUERY_VALUE_MAX
  }

  function EncodedPairs(params: Pairs): Pairs {
    seq(|params|, i requires 0 <= i < |params| => (UrlEncode(params[i].0), UrlEncode(params[i].1)))
  }

  function DecodedPairs(params: Pairs): Pairs {
    seq(|params|, i requires 0 <= i < |params| => (UrlDecode(params[i].0), UrlDecode(params[i].1)))
  }

  predicate IsNameChar(c: char) { c != '=' && IsValueChar(c) }

  predicate IsValueChar(c: char) { c != '&' && !IsControl(c) }

  lemma {:induction false} ScanName(s: Scan, text: string, more: string)
    requires !s.inValue && |s.name| + |text| <= QUERY_NAME_MAX
    requires forall c <- text :: IsNameChar(c)
    ensures ScanAll(s, text + more) == ScanAll(s.(name := s.name + text), more)
    decreases |text|
  {
    if text == "" {
      assert text + more == more;
      assert s.name + "" == s.name;
    } else {
      assert (text + more)[1..] == text[1..] + more;
      var s1 := s.(name := s.name + [text[0]]);
      assert IsNameChar(text[0]);
      ScanName(s1, text[1..], more);
      assert s.name + [text[0]] + text[1..] == s.name + text;
    }
  }

  lemma {:induction false} ScanValue(s: Scan, text: string, more: string)
    requires s.inValue && |s.value| + |text| <= QUERY_VALUE_MAX
    requires forall c <- text :: IsValueChar(c)
    ensures ScanAll(s, text + more) == ScanAll(s.(value := s.value + text), more)
    decreases |text|
  {
    if text == "" {
      assert text + more == more;
      assert s.value + "" == s.value;
    } else {
      assert (text + more)[1..] == text[1..] + more;
      var s1 := s.(value := s.value + [text[0]]);
      assert IsValueChar(text[0]);
      ScanValue(s1, text[1..], more);
      assert s.value + [text[0]] + text[1..] == s.value + text;
    }
  }

  lemma EncodedChars(s: string)
    ensures forall c <- UrlEncode(s) :: IsNameChar(c) && IsValueChar(c)
  {
    EncodedIsPlain(s);
    forall c | c in UrlEncode(s) ensures IsNameChar(c) {
      assert c == '%' || !NeedsEscape(c);
    }
  }

  /** One printed pair is scanned up to its end. */
  lemma ScanPair(dict: Pairs, p: (string, string), more: string)
    requires Fits(p)
    ensures ScanAll(Scan(false, "", "", dict), QueryPair(p) + more)
         == ScanAll(Scan(true, UrlEncode(p.0), UrlEncode(p.1), dict), more)
  {
    hide ScanAll;
    var (name, value) := (UrlEncode(p.0), UrlEncode(p.1));
    EncodedChars(p.0);
    EncodedChars(p.1);
    assert QueryPair(p) + more == name + ("=" + (value + more));
    ScanName(Scan(false, "", "", dict), name, "=" + (value + more));
    assert "" + name == name && "" + value == value;
    ScanOne(Scan(false, name, "", dict), '=', value + more);
    ScanValue(Scan(true, name, "", dict), value, more);
  }

  lemma ScanOne(s: Scan, c: char, more: string)
    requires ScanByte(s, c).Some?
    ensures ScanAll(s, [c] + more) == ScanAll(ScanByte(s, c).value, more)
  {
    assert ([c] + more)[1..] == more;
  }

  lemma {:induction false} ScanQuery(dict: Pairs, params: Pairs)
    requires forall p <- params :: Fits(p)
    ensures ScanAll(Scan(false, "", "", dict), QueryString(params)) == (true, dict + EncodedPairs(params))
    decreases |params|
  {
    if params == [] {
      assert dict + EncodedPairs([]) == dict;
    } else {
      var p, rest := params[0], params[1..];
      var e := (UrlEncode(p.0), UrlEncode(p.1));
      EncodedIsPlain(p.0);
      assert EncodedPairs(params) == [e] + EncodedPairs(rest);
      if rest == [] {
        assert QueryPair(p) + "" == QueryPair(p);
        ScanPair(dict, p, "");
        assert [e] + EncodedPairs(rest) == [e];
      } else {
        ScanPair(dict, p, "&" + QueryString(rest));
        ScanOne(Scan(true, e.0, e.1, dict), '&', QueryString(rest));
        ScanQuery(dict + [e], rest);
        assert dict + [e] + EncodedPairs(rest) == dict + ([e] + EncodedPairs(rest));
      }
    }
  }

  /** A query string is parsed into the pairs it was made from. */
  lemma QueryRoundTrip(params: Pairs)
    requires forall p <- params :: Fits(p)
    ensures ParsePairs(QueryString(params)).0
    ensures DecodedPairs(ParsePairs(QueryString(params)).1) == params
  {
    ScanQuery([], params);
    assert [] + EncodedPairs(params) == EncodedPairs(params);
    forall i | 0 <= i < |params| ensures DecodedPairs(EncodedPairs(params))[i] == params[i] {
      assert params[i] in params;
      UrlRoundTrip(params[i].0);
      UrlRoundTrip(params[i].1);
    }
  }

  // ------------------------------------------------------ queries in general

  /** A name, perhaps with a value. */
  datatype Item = Item(name: string, value: Option<string>)
  {
    function Text(): string { name + if value.Some? then "=" + value.value else "" }

    function Value(): string { if value.Some? then value.value else "" }

    ghost predicate Valid() {
      && |name| <= QUERY_NAME_MAX && (forall c <- name :: IsNameChar(c))
      && |Value()| <= QUERY_VALUE_MAX && forall c <- Value() :: IsValueChar(c)
    }
  }

  function Joined(items: seq<Item>): string {
    if items == [] then ""
    else if |items| == 1 then items[0].Text()
    else items[0].Text() + ("&" + Joined(items[1..]))
  }

  /** The pairs of items: those with a name, whether or not they have a value. */
  function Named(items: seq<Item>): Pairs {
    if items == [] then []
    else (if items[0].name != "" then [(items[0].name, items[0].Value())] else []) + Named(items[1..])
  }

  /** A text without its line breaks and tabs. */
  function Unfolded(text: string): string {
    if text == "" then ""
    else (if text[0] in "\r\n\t" then "" else [text[0]]) + Unfolded(text[1..])
  }

  lemma {:induction false} FoldsAreSkipped(s: Scan, text: string)
    ensures ScanAll(s, text) == ScanAll(s, Unfolded(text))
    decreases |text|
  {
    if text != "" {
      var rest := Unfolded(text[1..]);
      if text[0] in "\r\n\t" {
        assert ScanByte(s, text[0]) == Some(s);
        assert "" + rest == rest;
        FoldsAreSkipped(s, text[1..]);
      } else {
        assert ([text[0]] + rest)[1..] == rest;
        if ScanByte(s, text[0]).Some? {
          FoldsAreSkipped(ScanByte(s, text[0]).value, text[1..]);
        }
      }
    }
  }

  lemma ScanItem(dict: Pairs, item: Item, more: string)
    requires item.Valid()
    ensures ScanAll(Scan(false, "", "", dict), item.Text() + more)
         == ScanAll(Scan(item.value.Some?, item.name, item.Value(), dict), more)
  {
    hide ScanAll;
    var (name, value) := (item.name, item.Value());
    assert "" + name == name && "" + value == value;
    if item.value.None? {
      assert item.Text() + more == name + more;
      ScanName(Scan(false, "", "", dict), name, more);
    } else {
      assert item.Text() + more == name + ("=" + (value + more));
      ScanName(Scan(false, "", "", dict), name, "=" + (value + more));
      ScanOne(Scan(false, name, "", dict), '=', value + more);
      ScanValue(Scan(true, name, "", dict), value, more);
    }
  }

  lemma ScanEnd(s: Scan)
    ensures ScanAll(s, "") == (true, LastPair(s)) && (s.name == "" ==> LastPair(s) == s.dict)
  {
  }

  lemma ScanAmpersand(item: Item, dict: Pairs)
    ensures ScanByte(Scan(item.value.Some?, item.name, item.Value(), dict), '&')
         == Some(Scan(false, "", "", WithItem(dict, item)))
  {
  }

  lemma {:induction false} ScanItems(dict: Pairs, items: seq<Item>)
    requires forall i | 0 <= i < |items| :: items[i].Valid()
    ensures ScanAll(Scan(false, "", "", dict), Joined(items)) == (true, dict + Named(items))
    decreases |items|
  {
    hide ScanAll, ScanByte, Joined, Named, LastPair;
    ScanEnd(Scan(false, "", "", dict));
    JoinedNamed(items);
    assert dict + [] == dict;
    if items != [] {
      var (item, rest) := (items[0], items[1..]);
      var s := Scan(item.value.Some?, item.name, item.Value(), dict);
      var dict1 := WithItem(dict, item);
      NamedFirst(dict, item, Named(rest));
      JoinedNamed(rest);
      if rest == [] {
        assert |items| == 1 && item.Text() + "" == item.Text();
        assert Named(rest) == [] && dict1 + Named(rest) == dict1;
        ScanItem(dict, item, "");
        ScanEnd(s);
        LastItem(item, dict);
      } else {
        assert |items| > 1 && item.Text() + ("&" + Joined(rest)) == Joined(items);
        ScanItem(dict, item, "&" + Joined(rest));
        ScanAmpersand(item, dict);
        assert "&" + Joined(rest) == ['&'] + Joined(rest);
        ScanOne(s, '&', Joined(rest));
        ScanItems(dict1, rest);
      }
    }
  }

  function WithItem(dict: Pairs, item: Item): Pairs {
    if item.name != "" then dict + [(item.name, item.Value())] else dict
  }

  lemma JoinedNamed(items: seq<Item>)
    ensures items == [] ==> Joined(items) == "" && Named(items) == []
    ensures items != [] ==> Named(items) == WithItem([], items[0]) + Named(items[1..])
    ensures |items| == 1 ==> Joined(items) == items[0].Text()
    ensures |items| > 1 ==> Joined(items) == items[0].Text() + ("&" + Joined(items[1..]))
  {
    if items != [] {
      assert [] + [(items[0].name, items[0].Value())] == [(items[0].name, items[0].Value())];
    }
  }

  lemma NamedFirst(dict: Pairs, item: Item, more: Pairs)
    ensures dict + (WithItem([], item) + more) == WithItem(dict, item) + more
  {
  }

  lemma LastItem(item: Item, dict: Pairs)
    ensures LastPair(Scan(item.value.Some?, item.name, item.Value(), dict)) == WithItem(dict, item)
  {
  }

  /** Every query string of names and values, folded over lines or not, gives its pairs: a
      name without a value has an empty one, and what has no name is dropped. */
  lemma ItemsReadBack(items: seq<Item>, text: string)
    requires (forall i | 0 <= i < |items| :: items[i].Valid()) && Unfolded(text) == Joined(items)
    ensures ParsePairs(text) == (true, Named(items))
  {
    FoldsAreSkipped(Scan(false, "", "", []), text);
    ScanItems([], items);
    assert [] + Named(items) == Named(items);
  }
}
