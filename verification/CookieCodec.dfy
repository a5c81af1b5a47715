/** Set-Cookie headers (section 4.2.2 of RFC 2109): the printer make_set_cookie_header
    and the parser parseCookieHeader. */
module CookieCodec {
  import opened HttpTypes

  const COOKIE_NAME_MAX := 1024
  const COOKIE_VALUE_MAX := 1024 * 1024

  datatype Phase = Name | Value | Ignore

  /** quote is zero outside a quoted value; pairs is the dictionary. */
  datatype Scan = Scan(phase: Phase, name: string, value: string, quote: char, pairs: seq<(string, string)>)

  const INIT := Scan(Name, "", "", '\0', [])

  predicate IsCookieAttribute(name: string, setCookie: bool) {
    || name == "" || name[0] == '$'
    || (setCookie && (name == "Comment" || name == "Domain" || name == "Max-Age" || name == "Path"
                      || name == "Secure" || name == "Version" || name == "Expires"))
  }

  function Store(s: Scan, setCookie: bool): Scan {
    if IsCookieAttribute(s.name, setCookie) then s else s.(pairs := s.pairs + [(s.name, s.value)])
  }

  predicate IsSeparator(c: char) { c == ';' || c == ',' }

  /** One character; None when the header is rejected. */
  function Step(setCookie: bool, s: Scan, c: char): Option<Scan> {
    match s.phase
    case Name =>
      if c == '=' then Some(s.(quote := '\0', phase := Value))
      else if IsSeparator(c) then
        if s.name == "" then Some(s) else Some(Store(s, setCookie).(name := ""))
      else if c == ' ' then Some(s)
      else if IsControl(c) || |s.name| >= COOKIE_NAME_MAX then None
      else Some(s.(name := s.name + [c]))
    case Value => if s.quote == '\0' then UnquotedStep(setCookie, s, c) else QuotedStep(setCookie, s, c)
    case Ignore => Some(if IsSeparator(c) then s.(phase := Name) else s)
  }

  function UnquotedStep(setCookie: bool, s: Scan, c: char): Option<Scan> {
    if IsSeparator(c) then Some(Store(s, setCookie).(name := "", value := "", phase := Name))
    else if c == '\'' || c == '"' then
      if s.value == "" then Some(s.(quote := c))
      else if |s.value| >= COOKIE_VALUE_MAX then None
      else Some(s.(value := s.value + [c]))
    else if c == ' ' && s.value == "" then Some(s)
    else if IsControl(c) || |s.value| >= COOKIE_VALUE_MAX then None
    else Some(s.(value := s.value + [c]))
  }

  function QuotedStep(setCookie: bool, s: Scan, c: char): Option<Scan> {
    if c == s.quote then Some(Store(s, setCookie).(name := "", value := "", phase := Ignore))
    else if |s.value| >= COOKIE_VALUE_MAX then None
    else Some(s.(value := s.value + [c]))
  }

  /** What the parser returns, and the dictionary it leaves. */
  datatype Outcome = Outcome(ok: bool, pairs: seq<(string, string)>)

  function Parse(setCookie: bool, s: Scan, input: string): Outcome
    decreases |input|
  {
    if input == "" then Outcome(true, Store(s, setCookie).pairs)
    else
      match Step(setCookie, s, input[0])
      case None => Outcome(false, s.pairs)
      case Some(s') => Parse(setCookie, s', input[1..])
  }

  method ParseCookieHeader(input: string, setCookie: bool) returns (ok: bool, dict: seq<(string, string)>)
    ensures Outcome(ok, dict) == Parse(setCookie, INIT, input)
  {
    hide Step;
    var s := INIT;
    var i := 0;
    while i < |input|
      invariant 0 <= i <= |input|
      invariant Parse(setCookie, INIT, input) == Parse(setCookie, s, input[i..])
    {
      assert input[i..][1..] == input[i + 1..];
      var next := Advance(setCookie, s, input[i]);
      if next == None {
        return false, s.pairs;
      }
      s := next.value;
      i := i + 1;
    }
    return true, Store(s, setCookie).pairs;
  }

  /** The switch in the parser's loop. */
  method Advance(setCookie: bool, s: Scan, c: char) returns (next: Option<Scan>)
    ensures next == Step(setCookie, s, c)
  {
    var t := s;
    match s.phase {
      case Name =>
        if c == '=' {
          t := t.(quote := '\0', phase := Value);
        } else if c == ';' || c == ',' {
          if t.name != "" {
            if !IsCookieAttribute(t.name, setCookie) {
              t := t.(pairs := t.pairs + [(t.name, t.value)]);
            }
            t := t.(name := "");
          }
        } else if c != ' ' {
          if IsControl(c) || |t.name| >= COOKIE_NAME_MAX {
            return None;
          }
          t := t.(name := t.name + [c]);
        }
      case Value =>
        if t.quote == '\0' {
          if c == ';' || c == ',' {
            if !IsCookieAttribute(t.name, setCookie) {
              t := t.(pairs := t.pairs + [(t.name, t.value)]);
            }
            t := t.(name := "", value := "", phase := Name);
          } else if c == '\'' || c == '"' {
            if t.value == "" {
              t := t.(quote := c);
            } else if |t.value| >= COOKIE_VALUE_MAX {
              return None;
            } else {
              t := t.(value := t.value + [c]);
            }
          } else if c != ' ' || t.value != "" {
            if IsControl(c) || |t.value| >= COOKIE_VALUE_MAX {
              return None;
            }
            t := t.(value := t.value + [c]);
          }
        } else {
          if c == t.quote {
            if !IsCookieAttribute(t.name, setCookie) {
              t := t.(pairs := t.pairs + [(t.name, t.value)]);
            }
            t := t.(name := "", value := "", phase := Ignore);
          } else if |t.value| >= COOKIE_VALUE_MAX {
            return None;
          } else {
            t := t.(value := t.value + [c]);
          }
        }
      case Ignore =>
        if c == ';' || c == ',' {
          t := t.(phase := Name);
        }
    }
    return Some(t);
  }

  // ------------------------------------------------------------------ printing

  function Quoted(name: string, value: string): string { name + "=\"" + value + "\"" }

  function SetCookieHeader(name: string, value: string, path: string, maxAge: Option<nat>): string {
    Quoted(name, value) + Attributes(path, maxAge)
  }

  function Attributes(path: string, maxAge: Option<nat>): string {
    "; " + Quoted("Version", "1")
    + (if path != "" then "; " + Quoted("Path", path) else "")
    + (if maxAge.Some? then "; " + Quoted("Max-Age", PrintDec(maxAge.value)) else "")
  }

  lemma AppendedPair(before: string, opening: string, name: string, value: string)
    requires opening == "; " + name + "=\""
    ensures before + opening + value + "\"" == before + ("; " + Quoted(name, value))
  {
  }

  lemma Regroup(a: string, b: string, c: string, d: string)
    ensures a + b + c + d == a + (b + c + d)
  {
  }

  method MakeSetCookieHeader(name: string, value: string, path: string, hasMaxAge: bool, maxAge: nat) returns (header: string)
    ensures header == SetCookieHeader(name, value, path, if hasMaxAge then Some(maxAge) else None)
  {
    header := name;
    header := header + "=\"";
    header := header + value;
    header := header + "\"; Version=\"1\"";
    assert header == Quoted(name, value) + ("; " + Quoted("Version", "1"));
    hide Quoted;
    if path != "" {
      AppendedPair(header, "; Path=\"", "Path", path);
      header := header + "; Path=\"";
      header := header + path;
      header := header + "\"";
    }
    if hasMaxAge {
      AppendedPair(header, "; Max-Age=\"", "Max-Age", PrintDec(maxAge));
      header := header + "; Max-Age=\"";
      header := header + PrintDec(maxAge);
      header := header + "\"";
    }
    Regroup(Quoted(name, value), "; " + Quoted("Version", "1"),
            if path != "" then "; " + Quoted("Path", path) else "",
            if hasMaxAge then "; " + Quoted("Max-Age", PrintDec(maxAge)) else "");
  }

  // ------------------------------------------------------------- reading back

  predicate IsNameChar(c: char) { c != '=' && c != ';' && c != ',' && c != ' ' && !IsControl(c) }

  /** A name that survives: not an attribute, and made of characters that end nothing. */
  predicate LegalName(name: string) {
    && |name| <= COOKIE_NAME_MAX && !IsCookieAttribute(name, true)
    && forall i | 0 <= i < |name| :: IsNameChar(name[i])
  }

  lemma {:induction false} ParseName(setCookie: bool, s: Scan, name: string, rest: string)
    requires s.phase.Name? && |s.name| + |name| <= COOKIE_NAME_MAX
    requires forall i | 0 <= i < |name| :: IsNameChar(name[i])
    ensures Parse(setCookie, s, name + rest) == Parse(setCookie, s.(name := s.name + name), rest)
    decreases |name|
  {
    if name == "" {
      assert name + rest == rest && s.name + name == s.name;
    } else {
      assert (name + rest)[0] == name[0] && (name + rest)[1..] == name[1..] + rest;
      ParseName(setCookie, s.(name := s.name + [name[0]]), name[1..], rest);
      assert s.name + [name[0]] + name[1..] == s.name + name;
    }
  }

  lemma {:induction false} ParseQuoted(setCookie: bool, s: Scan, value: string, rest: string)
    requires s.phase.Value? && s.quote != '\0' && s.quote !in value
    ensures if |s.value| + |value| <= COOKIE_VALUE_MAX
            then Parse(setCookie, s, value + rest) == Parse(setCookie, s.(value := s.value + value), rest)
            else |s.value| <= COOKIE_VALUE_MAX ==> !Parse(setCookie, s, value + rest).ok
    decreases |value|
  {
    if value == "" {
      assert value + rest == rest && s.value + value == s.value;
    } else {
      assert (value + rest)[0] == value[0] && (value + rest)[1..] == value[1..] + rest;
      if |s.value| < COOKIE_VALUE_MAX {
        ParseQuoted(setCookie, s.(value := s.value + [value[0]]), value[1..], rest);
        assert s.value + [value[0]] + value[1..] == s.value + value;
      }
    }
  }

  /** A quoted pair, from its name to its closing quote. */
  lemma ParsePair(setCookie: bool, s: Scan, name: string, value: string, rest: string)
    requires s.phase.Name? && s.name == s.value == "" && '"' !in value
    requires |name| <= COOKIE_NAME_MAX && forall i | 0 <= i < |name| :: IsNameChar(name[i])
    ensures if |value| <= COOKIE_VALUE_MAX
            then Parse(setCookie, s, Quoted(name, value) + rest) ==
                 Parse(setCookie, Store(s.(name := name, value := value), setCookie).(name := "", value := "", quote := '"', phase := Ignore), rest)
            else !Parse(setCookie, s, Quoted(name, value) + rest).ok
  {
    var s1 := s.(name := name);
    assert Quoted(name, value) + rest == name + ("=\"" + value + "\"" + rest);
    ParseName(setCookie, s, name, "=\"" + value + "\"" + rest);
    var t1 := "=\"" + value + "\"" + rest;
    var t2 := "\"" + value + "\"" + rest;
    assert t1[0] == '=' && t1[1..] == t2;
    assert t2[0] == '"' && t2[1..] == value + ("\"" + rest);
    assert s.name + name == name;
    var s2 := s1.(quote := '\0', phase := Value);
    assert Parse(setCookie, s1, t1) == Parse(setCookie, s2, t2);
    var s3 := s2.(quote := '"');
    assert Parse(setCookie, s2, t2) == Parse(setCookie, s3, value + ("\"" + rest));
    ParseQuoted(setCookie, s3, value, "\"" + rest);
    assert ("\"" + rest)[1..] == rest;
    assert "" + value == value;
  }

  /** An attribute that follows a quoted value leaves no trace. */
  lemma ParseAttribute(s: Scan, name: string, value: string, rest: string)
    requires s.phase.Ignore? && s.name == s.value == "" && '"' !in value && |value| <= COOKIE_VALUE_MAX
    requires |name| <= COOKIE_NAME_MAX && (forall i | 0 <= i < |name| :: IsNameChar(name[i])) && IsCookieAttribute(name, true)
    ensures Parse(true, s, "; " + Quoted(name, value) + rest) == Parse(true, s.(quote := '"'), rest)
  {
    var text := "; " + Quoted(name, value) + rest;
    assert text[1..] == " " + Quoted(name, value) + rest;
    assert text[1..][1..] == Quoted(name, value) + rest;
    ParsePair(true, s.(phase := Name), name, value, rest);
  }

  lemma AttributesAreIgnored(s: Scan, path: string, maxAge: Option<nat>)
    requires s.phase.Ignore? && s.name == s.value == ""
    requires '"' !in path && |path| <= COOKIE_VALUE_MAX && (maxAge.Some? ==> maxAge.value < SIZE_LIMIT)
    ensures Parse(true, s, Attributes(path, maxAge)) == Outcome(true, s.pairs)
  {
    hide PrintDec, Step;
    var age := if maxAge.Some? then "; " + Quoted("Max-Age", PrintDec(maxAge.value)) else "";
    var place := if path != "" then "; " + Quoted("Path", path) else "";
    var t := s.(quote := '"');
    assert "; " + Quoted("Version", "1") + place + age == "; " + Quoted("Version", "1") + (place + age);
    ParseAttribute(s, "Version", "1", place + age);
    if path != "" {
      ParseAttribute(t, "Path", path, age);
    } else {
      assert place + age == age;
    }
    if maxAge.Some? {
      SizeHasTwentyDigits(maxAge.value);
      assert age == age + "";
      ParseAttribute(t, "Max-Age", PrintDec(maxAge.value), "");
    }
  }

  lemma {:induction false} PairsOnlyGrow(setCookie: bool, s: Scan, input: string)
    ensures s.pairs <= Parse(setCookie, s, input).pairs
    decreases |input|
  {
    if input != "" && Step(setCookie, s, input[0]).Some? {
      PairsOnlyGrow(setCookie, Step(setCookie, s, input[0]).value, input[1..]);
    }
  }

  /** The state after the quote that ends the value of a legal name. */
  function AfterPair(name: string, value: string): Scan { Scan(Ignore, "", "", '"', [(name, value)]) }

  lemma ParseFirstPair(name: string, value: string, rest: string)
    requires LegalName(name) && '"' !in value
    ensures var o := Parse(true, INIT, Quoted(name, value) + rest);
            if |value| <= COOKIE_VALUE_MAX then o == Parse(true, AfterPair(name, value), rest) else !o.ok
  {
    hide Parse;
    ParsePair(true, INIT, name, value, rest);
    assert Store(INIT.(name := name, value := value), true).(name := "", value := "", quote := '"', phase := Ignore)
        == AfterPair(name, value);
  }

  lemma QuoteCutsTheValue(name: string, value: string, rest: string)
    requires LegalName(name) && '"' in value
    ensures Parse(true, INIT, Quoted(name, value) + rest) != Outcome(true, [(name, value)])
  {
    hide Parse, LegalName;
    var i := FirstQuote(value);
    var more := value[i + 1..] + "\"" + rest;
    assert Quoted(name, value) + rest == Quoted(name, value[..i]) + more;
    ParseFirstPair(name, value[..i], more);
    PairsOnlyGrow(true, AfterPair(name, value[..i]), more);
    assert |value[..i]| != |value|;
    assert AfterPair(name, value[..i]).pairs[0] != (name, value);
  }

  /** A legal name with any value, and a path without quotes: the parser gets back
      exactly the one pair exactly when the value has no quote and is not too long. */
  lemma SetCookieReadsBack(name: string, value: string, path: string, maxAge: Option<nat>)
    requires LegalName(name) && '"' !in path && |path| <= COOKIE_VALUE_MAX && (maxAge.Some? ==> maxAge.value < SIZE_LIMIT)
    ensures Parse(true, INIT, SetCookieHeader(name, value, path, maxAge)) == Outcome(true, [(name, value)]) <==>
            '"' !in value && |value| <= COOKIE_VALUE_MAX
  {
    hide Parse, LegalName;
    if '"' in value {
      QuoteCutsTheValue(name, value, Attributes(path, maxAge));
    } else {
      ParseFirstPair(name, value, Attributes(path, maxAge));
      AttributesAreIgnored(AfterPair(name, value), path, maxAge);
    }
  }

  ghost function FirstQuote(s: string): (i: nat)
    requires '"' in s
    ensures i < |s| && s[i] == '"' && '"' !in s[..i]
  {
    if s[0] == '"' then 0 else 1 + FirstQuote(s[1..])
  }

  // ------------------------------------------------------ headers of a client

  /** How a value is written: as it is, between quotes of one kind, or not at all if it is
      empty. */
  datatype Style = Bare | InQuotes(quote: char) | NameOnly

  datatype Cookie = Cookie(name: string, value: string, style: Style)
  {
    function Text(): string {
      match style
      case Bare => name + ("=" + value)
      case InQuotes(q) => name + ("=" + ([q] + (value + [q])))
      case NameOnly => name
    }

    ghost predicate Valid() {
      && |name| <= COOKIE_NAME_MAX && (forall c <- name :: IsNameChar(c))
      && |value| <= COOKIE_VALUE_MAX
      && (match style
          case Bare =>
            && (forall c <- value :: c != ';' && c != ',' && !IsControl(c))
            && (value != "" ==> value[0] !in " '\"")
          case InQuotes(q) => (q == '"' || q == '\'') && q !in value
          case NameOnly => value == "")
    }
  }

  predicate IsBreak(text: string) { text != "" && (text[0] == ';' || text[0] == ',') && forall c <- text[1..] :: c == ' ' }

  /** A header with several cookies, with a separator and any spaces between two of them. */
  function CookieHeader(cookies: seq<Cookie>, between: string): string {
    if cookies == [] then ""
    else if |cookies| == 1 then cookies[0].Text()
    else cookies[0].Text() + (between + CookieHeader(cookies[1..], between))
  }

  /** The attributes that may follow a cookie in a Set-Cookie header. */
  const ATTRIBUTES := {"Comment", "Domain", "Max-Age", "Path", "Secure", "Version", "Expires"}

  /** What is no cookie: no name, a name that starts with a dollar sign, an attribute. */
  predicate IsDropped(name: string, setCookie: bool) { name == "" || "$" <= name || (setCookie && name in ATTRIBUTES) }

  /** The pairs of the cookies, without attributes. */
  function PairsOf(cookies: seq<Cookie>, setCookie: bool): seq<(string, string)> {
    if cookies == [] then []
    else PairOf(cookies[0], setCookie) + PairsOf(cookies[1..], setCookie)
  }

  function PairOf(c: Cookie, setCookie: bool): seq<(string, string)> {
    if IsDropped(c.name, setCookie) then [] else [(c.name, c.value)]
  }

  lemma StoreDrops(setCookie: bool, s: Scan, c: Cookie)
    requires s.name == c.name && s.value == c.value
    ensures Store(s, setCookie) == s.(pairs := s.pairs + PairOf(c, setCookie))
  {
    assert IsDropped(c.name, setCookie) ==> s.pairs + [] == s.pairs;
  }

  lemma {:induction false} ParseBare(setCookie: bool, s: Scan, value: string, rest: string)
    requires s.phase.Value? && s.quote == '\0' && |s.value| + |value| <= COOKIE_VALUE_MAX
    requires forall c <- value :: c != ';' && c != ',' && !IsControl(c)
    requires s.value == "" && value != "" ==> value[0] !in " '\""
    ensures Parse(setCookie, s, value + rest) == Parse(setCookie, s.(value := s.value + value), rest)
    decreases |value|
  {
    if value == "" {
      assert value + rest == rest && s.value + value == s.value;
    } else {
      assert value[0] in value && (value + rest)[0] == value[0] && (value + rest)[1..] == value[1..] + rest;
      assert forall c <- value[1..] :: c in value;
      assert |s.value + [value[0]]| > 0;
      ParseBare(setCookie, s.(value := s.value + [value[0]]), value[1..], rest);
      assert s.value + [value[0]] + value[1..] == s.value + value;
    }
  }

  lemma ParseOne(setCookie: bool, s: Scan, c: char, rest: string)
    requires Step(setCookie, s, c).Some?
    ensures Parse(setCookie, s, [c] + rest) == Parse(setCookie, Step(setCookie, s, c).value, rest)
  {
    assert ([c] + rest)[1..] == rest;
  }

  /** Where the parser is behind a cookie. */
  function Behind(setCookie: bool, s: Scan, c: Cookie): Scan {
    match c.style
    case Bare => Scan(Value, c.name, c.value, '\0', s.pairs)
    case NameOnly => s.(name := c.name)
    case InQuotes(q) => Scan(Ignore, "", "", q, s.pairs + PairOf(c, setCookie))
  }

  /** The name of a cookie and the sign behind it. */
  lemma ParseNameAndSign(setCookie: bool, s: Scan, c: Cookie, rest: string)
    requires s.phase.Name? && s.name == s.value == "" && c.Valid()
    ensures Parse(setCookie, s, c.name + rest) == Parse(setCookie, s.(name := c.name), rest)
    ensures Parse(setCookie, s, c.name + ("=" + rest)) == Parse(setCookie, s.(name := c.name, quote := '\0', phase := Value), rest)
  {
    hide Parse;
    assert "" + c.name == c.name;
    forall i | 0 <= i < |c.name| ensures IsNameChar(c.name[i]) {
      assert c.name[i] in c.name;
    }
    ParseName(setCookie, s, c.name, rest);
    ParseName(setCookie, s, c.name, "=" + rest);
    assert "=" + rest == ['='] + rest;
    ParseOne(setCookie, s.(name := c.name), '=', rest);
  }

  /** A value between quotes. */
  lemma ParseInQuotes(setCookie: bool, s: Scan, c: Cookie, rest: string)
    requires s.phase.Value? && s.quote == '\0' && s.value == "" && s.name == c.name && c.Valid() && c.style.InQuotes?
    ensures var q := c.style.quote;
            Parse(setCookie, s, [q] + (c.value + ([q] + rest))) == Parse(setCookie, Behind(setCookie, s, c), rest)
  {
    hide Parse;
    var q := c.style.quote;
    var t := [q] + rest;
    ParseOne(setCookie, s, q, c.value + t);
    ParseQuoted(setCookie, s.(quote := q), c.value, t);
    assert "" + c.value == c.value;
    StoreDrops(setCookie, s.(quote := q, value := c.value), c);
    ParseOne(setCookie, s.(quote := q, value := c.value), q, rest);
  }

  lemma CookieText(c: Cookie, rest: string)
    ensures c.Text() + rest ==
            match c.style
            case Bare => c.name + ("=" + (c.value + rest))
            case InQuotes(q) => c.name + ("=" + ([q] + (c.value + ([q] + rest))))
            case NameOnly => c.name + rest
  {
    if c.style.InQuotes? {
      var q := c.style.quote;
      assert [q] + (c.value + [q]) + rest == [q] + (c.value + ([q] + rest));
    }
  }

  lemma ParseCookie(setCookie: bool, s: Scan, c: Cookie, rest: string)
    requires s.phase.Name? && s.name == s.value == "" && c.Valid()
    ensures Parse(setCookie, s, c.Text() + rest) == Parse(setCookie, Behind(setCookie, s, c), rest)
  {
    hide Parse, Step;
    CookieText(c, rest);
    var s1 := s.(name := c.name, quote := '\0', phase := Value);
    match c.style {
      case NameOnly => ParseNameAndSign(setCookie, s, c, rest);
      case Bare =>
        ParseNameAndSign(setCookie, s, c, c.value + rest);
        ParseBare(setCookie, s1, c.value, rest);
        assert "" + c.value == c.value;
      case InQuotes(q) =>
        ParseNameAndSign(setCookie, s, c, [q] + (c.value + ([q] + rest)));
        ParseInQuotes(setCookie, s1, c, rest);
    }
  }

  lemma {:induction false} ParseSpaces(setCookie: bool, s: Scan, spaces: string, rest: string)
    requires s.phase.Name? && forall c <- spaces :: c == ' '
    ensures Parse(setCookie, s, spaces + rest) == Parse(setCookie, s, rest)
    decreases |spaces|
  {
    if spaces == "" {
      assert spaces + rest == rest;
    } else {
      assert spaces[0] in spaces && (spaces + rest)[1..] == spaces[1..] + rest;
      assert forall c <- spaces[1..] :: c in spaces;
      ParseSpaces(setCookie, s, spaces[1..], rest);
    }
  }

  lemma ParseBreak(setCookie: bool, s: Scan, c: Cookie, between: string, rest: string)
    requires c.Valid() && IsBreak(between) && s.phase.Name? && s.name == s.value == ""
    ensures Parse(setCookie, Behind(setCookie, s, c), between + rest)
         == Parse(setCookie, Scan(Name, "", "", Behind(setCookie, s, c).quote, s.pairs + PairOf(c, setCookie)), rest)
  {
    hide Parse;
    assert between + rest == [between[0]] + (between[1..] + rest);
    if !c.style.InQuotes? {
      StoreDrops(setCookie, Behind(setCookie, s, c), c);
    }
    ParseOne(setCookie, Behind(setCookie, s, c), between[0], between[1..] + rest);
    ParseSpaces(setCookie, Scan(Name, "", "", Behind(setCookie, s, c).quote, s.pairs + PairOf(c, setCookie)), between[1..], rest);
  }

  lemma {:induction false} ParseCookies(setCookie: bool, s: Scan, cookies: seq<Cookie>, between: string)
    requires s.phase.Name? && s.name == s.value == "" && IsBreak(between)
    requires forall i | 0 <= i < |cookies| :: cookies[i].Valid()
    ensures Parse(setCookie, s, CookieHeader(cookies, between)) == Outcome(true, s.pairs + PairsOf(cookies, setCookie))
    decreases |cookies|
  {
    if cookies == [] {
      assert s.pairs + [] == s.pairs;
    } else {
      var (c, rest) := (cookies[0], cookies[1..]);
      assert s.pairs + PairsOf(cookies, setCookie) == s.pairs + PairOf(c, setCookie) + PairsOf(rest, setCookie);
      if rest == [] {
        assert c.Text() + "" == c.Text();
        ParseCookie(setCookie, s, c, "");
        if !c.style.InQuotes? {
          StoreDrops(setCookie, Behind(setCookie, s, c), c);
        }
        assert s.pairs + PairOf(c, setCookie) + [] == s.pairs + PairOf(c, setCookie);
      } else {
        hide Parse;
        ParseCookie(setCookie, s, c, between + CookieHeader(rest, between));
        ParseBreak(setCookie, s, c, between, CookieHeader(rest, between));
        ParseCookies(setCookie, Scan(Name, "", "", Behind(setCookie, s, c).quote, s.pairs + PairOf(c, setCookie)), rest, between);
      }
    }
  }

  /** A header with any number of cookies, quoted or not, is parsed into their names and
      values in order, attributes dropped; any of the two separators may stand between them. */
  lemma CookiesReadBack(setCookie: bool, cookies: seq<Cookie>, between: string)
    requires IsBreak(between) && forall i | 0 <= i < |cookies| :: cookies[i].Valid()
    ensures Parse(setCookie, INIT, CookieHeader(cookies, between)) == Outcome(true, PairsOf(cookies, setCookie))
  {
    ParseCookies(setCookie, INIT, cookies, between);
    assert [] + PairsOf(cookies, setCookie) == PairsOf(cookies, setCookie);
  }
}
