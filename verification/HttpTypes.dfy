/** Character classes, numbers and header lookup shared by the HTTP modules.

    A byte is modelled as the character with that code; signed and unsigned
    readings agree on every class below, since each one is empty above 127. */
module HttpTypes {

  datatype Option<+T> = None | Some(value: T)

  /** boost::tribool. */
  datatype Tribool = True | False | Indeterminate

  type Header = (string, string)

  /** Capacity of std::size_t on a 64-bit platform. */
  const SIZE_LIMIT: int := 0x1_0000_0000_0000_0000

  /** Largest value strtol returns on a 64-bit platform. */
  const LONG_MAX: int := 0x7fff_ffff_ffff_ffff

  function Min(a: int, b: int): int { if a < b then a else b }

  predicate IsByte(c: char) { c as int < 256 }

  predicate AllBytes(s: string) { forall i | 0 <= i < |s| :: IsByte(s[i]) }

  predicate IsChar(c: char) { c as int <= 127 }

  predicate IsControl(c: char) { c as int <= 31 || c as int == 127 }

  predicate IsSpecial(c: char) {
    || c == '(' || c == ')' || c == '<' || c == '>' || c == '@'
    || c == ',' || c == ';' || c == ':' || c == '\\' || c == '"'
    || c == '/' || c == '[' || c == ']' || c == '?' || c == '='
    || c == '{' || c == '}' || c == ' ' || c == '\t'
  }

  predicate IsDigit(c: char) { '0' <= c <= '9' }

  predicate IsHexDigit(c: char) { '0' <= c <= '9' || 'a' <= c <= 'f' || 'A' <= c <= 'F' }

  /** A character that may appear in a method or a header name. */
  predicate IsToken(c: char) { IsChar(c) && !IsControl(c) && !IsSpecial(c) }

  predicate IsLetter(c: char) { 'A' <= c <= 'Z' || 'a' <= c <= 'z' }

  /** The characters of a token by section 2.2 of RFC 2616. */
  lemma TokensAreStandard(c: char)
    ensures IsToken(c) <==> IsLetter(c) || IsDigit(c) || c in "!#$%&'*+-.^_`|~"
  {
  }

  function DigitValue(c: char): (d: nat)
    requires IsDigit(c)
    ensures d < 10
  {
    (c - '0') as int
  }

  function HexDigitValue(c: char): (d: nat)
    requires IsHexDigit(c)
    ensures d < 16
  {
    if '0' <= c <= '9' then c as int - '0' as int
    else if 'a' <= c <= 'f' then c as int - 'a' as int + 10
    else c as int - 'A' as int + 10
  }

  /** The number a string of hexadecimal digits denotes. */
  function HexValue(s: string): nat
    requires forall c <- s :: IsHexDigit(c)
  {
    if s == [] then 0 else 16 * HexValue(s[..|s| - 1]) + HexDigitValue(s[|s| - 1])
  }

  /** The number a string of decimal digits denotes. */
  function DecValue(s: string): nat
    requires forall c <- s :: IsDigit(c)
  {
    if s == [] then 0 else 10 * DecValue(s[..|s| - 1]) + DigitValue(s[|s| - 1])
  }

  function HexDigit(d: nat): (c: char)
    requires d < 16
    ensures IsHexDigit(c) && HexDigitValue(c) == d
  {
    if d < 10 then '0' + d as char else 'a' + (d - 10) as char
  }

  function DecDigit(d: nat): (c: char)
    requires d < 10
    ensures IsDigit(c) && DigitValue(c) == d
  {
    '0' + d as char
  }

  /** printf's "%lx". */
  function PrintHex(n: nat): (s: string)
    ensures s != [] && forall c <- s :: IsHexDigit(c)
  {
    if n < 16 then [HexDigit(n)] else PrintHex(n / 16) + [HexDigit(n % 16)]
  }

  /** lexical_cast from an unsigned integer to text. */
  function PrintDec(n: nat): (s: string)
    ensures s != [] && forall c <- s :: IsDigit(c)
  {
    if n < 10 then [DecDigit(n)] else PrintDec(n / 10) + [DecDigit(n % 10)]
  }

  lemma {:induction false} HexRoundTrip(n: nat)
    ensures HexValue(PrintHex(n)) == n
  {
    if n >= 16 {
      HexRoundTrip(n / 16);
      assert PrintHex(n)[..|PrintHex(n)| - 1] == PrintHex(n / 16);
    } else {
      assert PrintHex(n)[..0] == [];
    }
  }

  lemma {:induction false} DecRoundTrip(n: nat)
    ensures DecValue(PrintDec(n)) == n
  {
    if n >= 10 {
      DecRoundTrip(n / 10);
      assert PrintDec(n)[..|PrintDec(n)| - 1] == PrintDec(n / 10);
    } else {
      assert PrintDec(n)[..0] == [];
    }
  }

  function Pow10(k: nat): nat { if k == 0 then 1 else 10 * Pow10(k - 1) }

  lemma {:induction false} DecLength(n: nat, digits: nat)
    requires 0 < digits && n < Pow10(digits)
    ensures |PrintDec(n)| <= digits
    decreases digits
  {
    if n >= 10 {
      assert Pow10(1) == 10 && digits > 1;
      DecLength(n / 10, digits - 1);
    }
  }

  lemma SizeHasTwentyDigits(n: nat)
    requires n < SIZE_LIMIT
    ensures |PrintDec(n)| <= 20
  {
    hide PrintDec;
    assert Pow10(4) == 10000;
    assert Pow10(8) == 10000 * Pow10(4);
    assert Pow10(12) == 10000 * Pow10(8);
    assert Pow10(16) == 10000 * Pow10(12);
    assert Pow10(20) == 10000 * Pow10(16);
    DecLength(n, 20);
  }

  /** The longest prefix made of hexadecimal digits. */
  function HexPrefix(s: string): (p: string)
    ensures p <= s && (forall c <- p :: IsHexDigit(c))
    ensures |p| < |s| ==> !IsHexDigit(s[|p|])
  {
    if s == [] || !IsHexDigit(s[0]) then [] else [s[0]] + HexPrefix(s[1..])
  }

  /** strtol(s, 0, 16) on unsigned text: the value of the leading digits, saturated. */
  function StrToLong16(s: string): nat {
    Min(HexValue(HexPrefix(s)), LONG_MAX)
  }

  /** A printed number parses to itself, or to the largest value that can be held. */
  lemma PrintedHexParses(n: nat)
    ensures StrToLong16(PrintHex(n)) == Min(n, LONG_MAX)
  {
    HexRoundTrip(n);
    assert HexPrefix(PrintHex(n)) == PrintHex(n);
  }

  function ToLower(c: char): char {
    if 'A' <= c <= 'Z' then c + ('a' - 'A') else c
  }

  function Lower(s: string): string {
    seq(|s|, i requires 0 <= i < |s| => ToLower(s[i]))
  }

  predicate SameName(a: string, b: string) { Lower(a) == Lower(b) }

  /** The same character, or the same letter in the other case, 32 codes apart. */
  predicate SameLetter(a: char, b: char) {
    a == b || (IsLetter(a) && IsLetter(b) && (a as int == b as int + 32 || b as int == a as int + 32))
  }

  lemma SameNameExactlyWhen(a: string, b: string)
    ensures SameName(a, b) <==> |a| == |b| && forall i | 0 <= i < |a| :: SameLetter(a[i], b[i])
  {
    forall i | 0 <= i < |a| && |a| == |b| ensures SameLetter(a[i], b[i]) <==> Lower(a)[i] == Lower(b)[i] {
    }
  }

  /** The value of the first header with the given name, compared without case. */
  function FindHeader(headers: seq<Header>, name: string): Option<string> {
    if headers == [] then None
    else if SameName(headers[0].0, name) then Some(headers[0].1)
    else FindHeader(headers[1..], name)
  }

  lemma {:induction false} FindHeaderConcat(a: seq<Header>, b: seq<Header>, name: string)
    ensures FindHeader(a + b, name) == if FindHeader(a, name).Some? then FindHeader(a, name) else FindHeader(b, name)
    ensures (forall h <- a :: !SameName(h.0, name)) ==> FindHeader(a, name) == None
    decreases |a|
  {
    if a == [] {
      assert a + b == b;
    } else {
      assert (a + b)[1..] == a[1..] + b;
      FindHeaderConcat(a[1..], b, name);
      assert forall h <- a[1..] :: h in a;
    }
  }

  /** Whether the pattern ".*chunked.*" matches without regard to case. */
  predicate MentionsChunked(s: string) {
    |s| >= 7 && (Lower(s[..7]) == "chunked" || MentionsChunked(s[1..]))
  }

  predicate WordAt(s: string, i: nat) { i + 7 <= |s| && SameName(s[i..i + 7], "chunked") }

  /** The pattern matches exactly if the word stands somewhere in the text. */
  lemma {:induction false} MentionsExactlyWhen(s: string)
    ensures MentionsChunked(s) <==> exists i: nat :: WordAt(s, i)
  {
    assert Lower("chunked") == "chunked";
    if |s| >= 7 {
      assert s[0..0 + 7] == s[..7];
      assert WordAt(s, 0) <==> Lower(s[..7]) == "chunked";
      MentionsExactlyWhen(s[1..]);
      forall i: nat ensures WordAt(s[1..], i) <==> WordAt(s, i + 1) {
        assert i + 8 <= |s| ==> s[1..][i..i + 7] == s[i + 1..i + 1 + 7];
      }
      if i: nat :| WordAt(s, i) {
        assert i > 0 ==> WordAt(s[1..], i - 1);
      }
    }
  }

  predicate IsSpace(c: char) { c == ' ' || 9 <= c as int <= 13 }

  function TrimLeft(s: string): string {
    if s != [] && IsSpace(s[0]) then TrimLeft(s[1..]) else s
  }

  function TrimRight(s: string): string {
    if s != [] && IsSpace(s[|s| - 1]) then TrimRight(s[..|s| - 1]) else s
  }

  /** lexical_cast to std::size_t: an optional sign, then digits that fit; a
      leading minus wraps around. */
  function ParseSize(s: string): Option<nat> {
    var signed := s != [] && (s[0] == '-' || s[0] == '+');
    var digits := if signed then s[1..] else s;
    if digits == [] || exists c <- digits :: !IsDigit(c) then None
    else if DecValue(digits) >= SIZE_LIMIT then None
    else if signed && s[0] == '-' then Some((SIZE_LIMIT - DecValue(digits)) % SIZE_LIMIT)
    else Some(DecValue(digits))
  }

  function ContentLengthOf(text: string): Option<nat> {
    ParseSize(TrimRight(TrimLeft(text)))
  }

  lemma PrintedLengthParses(n: nat)
    requires n < SIZE_LIMIT
    ensures ContentLengthOf(PrintDec(n)) == Some(n)
  {
    var s := PrintDec(n);
    DecRoundTrip(n);
    assert IsDigit(s[0]) && IsDigit(s[|s| - 1]);
    assert TrimRight(TrimLeft(s)) == s;
  }

  lemma {:induction false} TrimLeftDrops(before: string, text: string)
    requires (forall c <- before :: IsSpace(c)) && text != "" && !IsSpace(text[0])
    ensures TrimLeft(before + text) == text
    decreases |before|
  {
    var s := before + text;
    if before == "" {
      assert s == text;
    } else {
      assert before[0] in before && s[0] == before[0] && s[1..] == before[1..] + text;
      assert forall c <- before[1..] :: c in before;
      TrimLeftDrops(before[1..], text);
    }
  }

  lemma {:induction false} TrimRightDrops(text: string, after: string)
    requires (forall c <- after :: IsSpace(c)) && text != "" && !IsSpace(text[|text| - 1])
    ensures TrimRight(text + after) == text
    decreases |after|
  {
    var s := text + after;
    if after == "" {
      assert s == text;
    } else {
      var n := |after| - 1;
      assert after[n] in after && s[|s| - 1] == after[n] && s[..|s| - 1] == text + after[..n];
      assert forall c <- after[..n] :: c in after;
      TrimRightDrops(text, after[..n]);
    }
  }

  lemma TrimDropsSpaces(before: string, text: string, after: string)
    requires (forall c <- before :: IsSpace(c)) && forall c <- after :: IsSpace(c)
    requires text != "" && !IsSpace(text[0]) && !IsSpace(text[|text| - 1])
    ensures TrimRight(TrimLeft(before + (text + after))) == text
  {
    hide TrimLeft, TrimRight;
    assert (text + after)[0] == text[0];
    TrimLeftDrops(before, text + after);
    TrimRightDrops(text, after);
  }

  /** What a length header denotes: digits between any white space, after an optional sign.
      A number that does not fit is refused, and a minus sign wraps it around. */
  lemma LengthsParse(before: string, sign: string, digits: string, after: string)
    requires (forall c <- before :: IsSpace(c)) && forall c <- after :: IsSpace(c)
    requires sign in {"", "+", "-"} && digits != "" && forall c <- digits :: IsDigit(c)
    ensures ContentLengthOf(before + (sign + digits + after)) ==
            var n := DecValue(digits);
            if n >= SIZE_LIMIT then None
            else if sign == "-" && n > 0 then Some(SIZE_LIMIT - n)
            else Some(n)
  {
    hide DecValue;
    var text := sign + digits;
    assert digits[0] in digits && digits[|digits| - 1] in digits;
    assert text[|text| - 1] == digits[|digits| - 1];
    TrimDropsSpaces(before, text, after);
    assert sign == "" ==> text == digits;
    assert sign != "" ==> text[1..] == digits && text[0] == sign[0];
  }

  /** Anything but digits makes a length bad. */
  lemma BadLengths(before: string, sign: string, digits: string, after: string)
    requires (forall c <- before :: IsSpace(c)) && forall c <- after :: IsSpace(c)
    requires sign in {"", "+", "-"} && sign + digits != "" && !IsSpace((sign + digits)[0]) && !IsSpace((sign + digits)[|sign + digits| - 1])
    requires (digits == "" || digits[0] !in "+-") && exists c <- digits :: !IsDigit(c)
    ensures ContentLengthOf(before + (sign + digits + after)) == None
  {
    var text := sign + digits;
    TrimDropsSpaces(before, text, after);
    assert sign == "" ==> text == digits;
    assert sign != "" ==> text[1..] == digits;
  }

  function Flatten(pieces: seq<string>): string {
    if pieces == [] then "" else pieces[0] + Flatten(pieces[1..])
  }

  lemma {:induction false} FlattenConcat(a: seq<string>, b: seq<string>)
    ensures Flatten(a + b) == Flatten(a) + Flatten(b)
  {
    if a == [] {
      assert a + b == b;
    } else {
      assert (a + b)[1..] == a[1..] + b;
      FlattenConcat(a[1..], b);
    }
  }

  /** n copies of the character used for lost data. */
  function Dummy(n: nat): string { seq(n, _ => 'X') }
}
