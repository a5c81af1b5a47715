/** Base64 (section 4 of RFC 4648) as in algo::base64_encode and base64_decode.

    Shifts and masks of the source are written as
    division and remainder. */
module Base64 {
  import opened HttpTypes

  function Code(c: char): (d: Option<nat>)
    ensures d.Some? ==> d.value < 64
  {
    if 'A' <= c <= 'Z' then Some(c as int - 'A' as int)
    else if 'a' <= c <= 'z' then Some(c as int - 'a' as int + 26)
    else if '0' <= c <= '9' then Some(c as int - '0' as int + 52)
    else if c == '+' then Some(62)
    else if c == '/' then Some(63)
    else None
  }

  function Letter(d: nat): (c: char)
    requires d < 64
    ensures Code(c) == Some(d) && c != '='
  {
    if d < 26 then 'A' + d as char
    else if d < 52 then 'a' + (d - 26) as char
    else if d < 62 then '0' + (d - 52) as char
    else if d == 62 then '+'
    else '/'
  }

  lemma LetterOfCode(c: char)
    requires Code(c).Some?
    ensures Letter(Code(c).value) == c
  {
  }

  // Table 1 of RFC 4648.

  const UPPER := "ABCDEFGHIJKLMNOPQRSTUVWXYZ"
  const LOWER := "abcdefghijklmnopqrstuvwxyz"
  const DIGITS := "0123456789"
  const ALPHABET := UPPER + LOWER + DIGITS + "+/"

  lemma LetterIsStandard(d: nat)
    requires d < 64
    ensures |ALPHABET| == 64 && Letter(d) == ALPHABET[d]
  {
  }

  /** The letters are those of the table, in its order, and no other character has a code. */
  lemma AlphabetIsStandard(c: char)
    ensures |ALPHABET| == 64
    ensures forall d: nat | d < 64 :: Letter(d) == ALPHABET[d] && (Code(c) == Some(d) <==> c == ALPHABET[d])
    ensures Code(c).Some? <==> c in ALPHABET
  {
    hide Code, Letter;
    LetterIsStandard(0);
    forall d: nat | d < 64 ensures Letter(d) == ALPHABET[d] {
      LetterIsStandard(d);
    }
    if Code(c).Some? {
      LetterOfCode(c);
    }
  }

  // The four six-bit groups of three bytes, the last two of which may be absent (zero).

  function Group0(a: char): (d: nat)
    requires IsByte(a)
    ensures d < 64
  {
    a as int / 4
  }

  function Group1(a: char, b: int): (d: nat)
    requires IsByte(a) && 0 <= b < 256
    ensures d < 64
  {
    a as int % 4 * 16 + b / 16
  }

  function Group2(b: char, c: int): (d: nat)
    requires IsByte(b) && 0 <= c < 256
    ensures d < 64
  {
    b as int % 16 * 4 + c / 64
  }

  function Group3(c: char): (d: nat)
    requires IsByte(c)
    ensures d < 64
  {
    c as int % 64
  }

  function EncodeGroup(s: string): string
    requires AllBytes(s) && 1 <= |s| <= 3
  {
    if |s| == 1 then [Letter(Group0(s[0])), Letter(Group1(s[0], 0)), '=', '=']
    else if |s| == 2 then [Letter(Group0(s[0])), Letter(Group1(s[0], s[1] as int)), Letter(Group2(s[1], 0)), '=']
    else [Letter(Group0(s[0])), Letter(Group1(s[0], s[1] as int)), Letter(Group2(s[1], s[2] as int)), Letter(Group3(s[2]))]
  }

  /** A group of bytes, read as one number in base 256. */
  function BytesNumber(s: string): nat {
    if s == "" then 0 else BytesNumber(s[..|s| - 1]) * 256 + s[|s| - 1] as int
  }

  /** A group of letters, read as one number in base 64 up to its padding. */
  function LettersNumber(t: string): nat {
    if t == "" || Code(t[|t| - 1]).None? then 0 else LettersNumber(t[..|t| - 1]) * 64 + Code(t[|t| - 1]).value
  }

  /** The letters of a group spell the number that its bytes spell, with the bits that are
      missing in the last letter filled with zeros. */
  lemma GroupKeepsNumber(s: string)
    requires AllBytes(s) && 1 <= |s| <= 3
    ensures var t := EncodeGroup(s);
            && |t| == 4 && (forall i | |s| < i < 4 :: t[i] == '=')
            && LettersNumber(t[..|s| + 1]) == BytesNumber(s) * (if |s| == 1 then 16 else if |s| == 2 then 4 else 1)
  {
    var t := EncodeGroup(s);
    BytesNumberOf(s);
    LettersNumberOf(t[..|s| + 1]);
  }

  lemma BytesNumberOf(s: string)
    requires AllBytes(s) && 1 <= |s| <= 3
    ensures BytesNumber(s) ==
            if |s| == 1 then s[0] as int
            else if |s| == 2 then s[0] as int * 256 + s[1] as int
            else (s[0] as int * 256 + s[1] as int) * 256 + s[2] as int
  {
    if |s| > 1 {
      assert s[..|s| - 1][|s| - 2] == s[|s| - 2];
      BytesNumberOf(s[..|s| - 1]);
    }
  }

  lemma LettersNumberOf(t: string)
    requires 2 <= |t| <= 4 && forall c <- t :: Code(c).Some?
    ensures var (d0, d1) := (Code(t[0]).value, Code(t[1]).value);
            LettersNumber(t) ==
            if |t| == 2 then d0 * 64 + d1
            else if |t| == 3 then (d0 * 64 + d1) * 64 + Code(t[2]).value
            else ((d0 * 64 + d1) * 64 + Code(t[2]).value) * 64 + Code(t[3]).value
  {
    if |t| > 2 {
      LettersNumberOf(t[..|t| - 1]);
    } else {
      assert LettersNumber(t[..1]) == Code(t[0]).value;
    }
  }

  function Encode(s: string): string
    requires AllBytes(s)
  {
    if s == [] then [] else EncodeGroup(s[..Min(3, |s|)]) + Encode(s[Min(3, |s|)..])
  }

  // The three bytes of four six-bit groups.

  function Byte0(d0: nat, d1: nat): (c: char)
    requires d0 < 64 && d1 < 64
    ensures IsByte(c)
  {
    (d0 * 4 + d1 / 16) as char
  }

  function Byte1(d1: nat, d2: nat): (c: char)
    requires d1 < 64 && d2 < 64
    ensures IsByte(c)
  {
    (d1 % 16 * 16 + d2 / 4) as char
  }

  function Byte2(d2: nat, d3: nat): (c: char)
    requires d2 < 64 && d3 < 64
    ensures IsByte(c)
  {
    (d2 % 4 * 64 + d3) as char
  }

  lemma BytesOfGroups(a: char, b: char, c: char)
    requires IsByte(a) && IsByte(b) && IsByte(c)
    ensures Byte0(Group0(a), Group1(a, b as int)) == a && Byte0(Group0(a), Group1(a, 0)) == a
    ensures Byte1(Group1(a, b as int), Group2(b, c as int)) == b && Byte1(Group1(a, b as int), Group2(b, 0)) == b
    ensures Byte2(Group2(b, c as int), Group3(c)) == c
  {
  }

  lemma GroupsOfBytes(d0: nat, d1: nat, d2: nat, d3: nat)
    requires d0 < 64 && d1 < 64 && d2 < 64 && d3 < 64
    ensures var a, b, c := Byte0(d0, d1), Byte1(d1, d2), Byte2(d2, d3);
            && Group0(a) == d0 && Group1(a, b as int) == d1 && Group2(b, c as int) == d2 && Group3(c) == d3
            && (Group1(a, 0) == d1 <==> d1 % 16 == 0) && (Group2(b, 0) == d2 <==> d2 % 4 == 0)
  {
  }

  /** What base64_decode leaves: whether it accepts, and the output so far. */
  datatype Decoded = Decoded(ok: bool, bytes: string)

  function Prepend(bytes: string, d: Decoded): Decoded { d.(bytes := bytes + d.bytes) }

  /** Reading one group: either it is the last thing read, or three bytes of output. */
  datatype Group = Last(result: Decoded) | Full(bytes: string)

  /** A padding character ends the input; without padding the last group may be short. */
  function DecodeGroup(t: string): Group
    requires t != []
  {
    if Code(t[0]).None? || |t| == 1 || Code(t[1]).None? then Last(Decoded(false, []))
    else
      var b0 := Byte0(Code(t[0]).value, Code(t[1]).value);
      if |t| == 2 || t[2] == '=' then Last(Decoded(true, [b0]))
      else if Code(t[2]).None? then Last(Decoded(false, [b0]))
      else
        var b1 := Byte1(Code(t[1]).value, Code(t[2]).value);
        if |t| == 3 || t[3] == '=' then Last(Decoded(true, [b0, b1]))
        else if Code(t[3]).None? then Last(Decoded(false, [b0, b1]))
        else Full([b0, b1, Byte2(Code(t[2]).value, Code(t[3]).value)])
  }

  function Decode(t: string): Decoded {
    if t == [] then Decoded(true, [])
    else
      match DecodeGroup(t)
      case Last(d) => d
      case Full(bytes) => Prepend(bytes, Decode(t[Min(4, |t|)..]))
  }

  // ------------------------------------------------------------ the algorithms

  lemma {:induction false} EncodeNextGroup(s: string, i: nat, j: nat)
    requires AllBytes(s) && i % 3 == 0 && i < |s| && j == Min(i + 3, |s|)
    ensures Encode(s[..j]) == Encode(s[..i]) + EncodeGroup(s[i..j])
  {
    hide EncodeGroup;
    if i == 0 {
      assert s[..j][..Min(3, j)] == s[0..j];
      assert Encode(s[..j]) == EncodeGroup(s[0..j]) + Encode(s[..j][j..]);
    } else {
      EncodeNextGroup(s[3..], i - 3, j - 3);
      assert s[..j][3..] == s[3..][..j - 3] && s[..i][3..] == s[3..][..i - 3];
      assert s[3..][i - 3..j - 3] == s[i..j];
      assert s[..j][..3] == s[..i][..3];
    }
  }

  method EncodeBase64(input: string) returns (output: string)
    requires AllBytes(input)
    ensures output == Encode(input)
  {
    hide Code, Letter, Group0, Group1, Group2, Group3, Byte0, Byte1, Byte2, Encode;
    output := "";
    var i := 0;
    EncodeNothing();
    while i < |input|
      invariant i <= |input| + 2 && (i <= |input| ==> i % 3 == 0)
      invariant output == Encode(input[..Min(i, |input|)])
    {
      ghost var start := i;
      ghost var before := output;
      ghost var group := input[start..Min(start + 3, |input|)];
      EncodeNextGroup(input, start, Min(start + 3, |input|));
      var code0 := Group0(input[i]);
      output := output + [Letter(code0)];
      var code1 := Group1(input[i], 0);
      i := i + 1;
      if i < |input| {
        code1 := Group1(input[i - 1], input[i] as int);
        output := output + [Letter(code1)];
        var code2 := Group2(input[i], 0);
        i := i + 1;
        if i < |input| {
          code2 := Group2(input[i - 1], input[i] as int);
          var code3 := Group3(input[i]);
          output := output + [Letter(code2)];
          output := output + [Letter(code3)];
        } else {
          output := output + [Letter(code2)];
          output := output + ['='];
        }
      } else {
        output := output + [Letter(code1)];
        output := output + ['='];
        output := output + ['='];
      }
      i := i + 1;
      assert output == before + EncodeGroup(group);
    }
    assert input[..|input|] == input;
  }

  lemma EncodeNothing()
    ensures Encode("") == ""
  {
  }

  /** The result when output has been produced from the groups before position i. */
  ghost function Resumed(output: string, input: string, i: nat): Decoded {
    if i < |input| then Prepend(output, Decode(input[i..])) else Decoded(true, output)
  }

  lemma DecodeNextGroup(output: string, input: string, i: nat)
    requires i < |input|
    ensures match DecodeGroup(input[i..])
            case Last(d) => Resumed(output, input, i) == Prepend(output, d)
            case Full(bytes) => Resumed(output, input, i) == Resumed(output + bytes, input, i + 4)
  {
    hide DecodeGroup;
    var t := input[i..];
    assert t[Min(4, |t|)..] == input[Min(i + 4, |input|)..];
    match DecodeGroup(t) {
      case Last(d) =>
      case Full(bytes) =>
        var rest := Decode(input[Min(i + 4, |input|)..]);
        assert output + (bytes + rest.bytes) == output + bytes + rest.bytes;
    }
  }

  method DecodeBase64(input: string) returns (ok: bool, output: string)
    ensures Decoded(ok, output) == Decode(input)
  {
    hide Code, Byte0, Byte1, Byte2, Decode, Resumed;
    output := "";
    var i := 0;
    DecodeFromStart(input);
    while i < |input|
      invariant Decode(input) == Resumed(output, input, i)
    {
      ghost var t := input[i..];
      ghost var before := output;
      DecodeNextGroup(output, input, i);
      var code0 := Code(input[i]);
      if code0 == None {
        return false, output;
      }
      i := i + 1;
      if !(i < |input|) {
        return false, output;
      }
      assert input[i] == t[1];
      var code1 := Code(input[i]);
      if code1 == None {
        return false, output;
      }
      output := output + [Byte0(code0.value, code1.value)];
      var code2 := Some(0);
      i := i + 1;
      if i < |input| {
        assert input[i] == t[2];
        if input[i] == '=' {
          return true, output;
        }
        code2 := Code(input[i]);
        if code2 == None {
          return false, output;
        }
        output := output + [Byte1(code1.value, code2.value)];
      }
      i := i + 1;
      if i < |input| {
        assert input[i] == t[3];
        if input[i] == '=' {
          return true, output;
        }
        var code3 := Code(input[i]);
        if code3 == None {
          return false, output;
        }
        output := output + [Byte2(code2.value, code3.value)];
      }
      i := i + 1;
      assert output == before + if |t| >= 4 then DecodeGroup(t).bytes else DecodeGroup(t).result.bytes;
      if i >= |input| {
        DecodeAtEnd(output, input, i);
      }
    }
    DecodeAtEnd(output, input, i);
    return true, output;
  }

  lemma DecodeFromStart(input: string)
    ensures Decode(input) == Resumed("", input, 0)
  {
    assert input[0..] == input;
  }

  lemma DecodeAtEnd(output: string, input: string, i: nat)
    requires i >= |input|
    ensures Resumed(output, input, i) == Decoded(true, output)
  {
  }

  // -------------------------------------------------------------- the two ways

  /** Decoding undoes encoding, for every string of bytes. */
  lemma {:induction false} DecodeUndoesEncode(s: string)
    requires AllBytes(s)
    ensures Decode(Encode(s)) == Decoded(true, s)
  {
    hide Code, Letter, Group0, Group1, Group2, Group3, Byte0, Byte1, Byte2;
    if |s| >= 3 {
      DecodeUndoesEncode(s[3..]);
      BytesOfGroups(s[0], s[1], s[2]);
      assert Encode(s)[4..] == Encode(s[3..]);
      assert s == s[..3] + s[3..];
    } else if s != [] {
      BytesOfGroups(s[0], s[|s| - 1], s[0]);
    }
  }

  lemma {:induction false} EncodedLength(s: string)
    requires AllBytes(s)
    ensures |Encode(s)| == 4 * ((|s| + 2) / 3)
  {
    hide Code, Letter, Group0, Group1, Group2, Group3, Byte0, Byte1, Byte2;
    if |s| >= 3 {
      EncodedLength(s[3..]);
    }
  }

  /** Padded text whose unused bits are zero. */
  predicate Canonical(t: string) {
    t == [] ||
    (|t| >= 4 && Code(t[0]).Some? && Code(t[1]).Some? &&
     if t[2] == '=' then t[2..] == "==" && Code(t[1]).value % 16 == 0
     else Code(t[2]).Some? &&
          if t[3] == '=' then |t| == 4 && Code(t[2]).value % 4 == 0
          else Code(t[3]).Some? && Canonical(t[4..]))
  }

  lemma {:induction false} DecodedBytes(t: string)
    ensures AllBytes(Decode(t).bytes)
  {
    if |t| >= 4 {
      DecodedBytes(t[4..]);
    }
  }

  lemma SameLetter(d: nat, e: nat)
    requires d < 64 && e < 64
    ensures Letter(d) == Letter(e) <==> d == e
  {
  }

  lemma OneByteBack(c0: char, c1: char)
    requires Code(c0).Some? && Code(c1).Some?
    ensures EncodeGroup([Byte0(Code(c0).value, Code(c1).value)]) == [c0, c1, '=', '='] <==> Code(c1).value % 16 == 0
    ensures EncodeGroup([Byte0(Code(c0).value, Code(c1).value)])[2..] == "=="
  {
    hide Code, Letter, Group0, Group1, Group2, Group3, Byte0, Byte1, Byte2;
    LetterOfCode(c0);
    LetterOfCode(c1);
    var d0, d1 := Code(c0).value, Code(c1).value;
    GroupsOfBytes(d0, d1, 0, 0);
    SameLetter(d1, Group1(Byte0(d0, d1), 0));
  }

  lemma TwoBytesBack(c0: char, c1: char, c2: char)
    requires Code(c0).Some? && Code(c1).Some? && Code(c2).Some?
    ensures var d0, d1, d2 := Code(c0).value, Code(c1).value, Code(c2).value;
            EncodeGroup([Byte0(d0, d1), Byte1(d1, d2)]) == [c0, c1, c2, '='] <==> d2 % 4 == 0
  {
    hide Code, Letter, Group0, Group1, Group2, Group3, Byte0, Byte1, Byte2;
    LetterOfCode(c0);
    LetterOfCode(c1);
    LetterOfCode(c2);
    var d0, d1, d2 := Code(c0).value, Code(c1).value, Code(c2).value;
    GroupsOfBytes(d0, d1, d2, 0);
    SameLetter(d2, Group2(Byte1(d1, d2), 0));
  }

  lemma ThreeBytesBack(c0: char, c1: char, c2: char, c3: char)
    requires Code(c0).Some? && Code(c1).Some? && Code(c2).Some? && Code(c3).Some?
    ensures var d0, d1, d2, d3 := Code(c0).value, Code(c1).value, Code(c2).value, Code(c3).value;
            EncodeGroup([Byte0(d0, d1), Byte1(d1, d2), Byte2(d2, d3)]) == [c0, c1, c2, c3]
  {
    hide Code, Letter, Group0, Group1, Group2, Group3, Byte0, Byte1, Byte2;
    LetterOfCode(c0);
    LetterOfCode(c1);
    LetterOfCode(c2);
    LetterOfCode(c3);
    GroupsOfBytes(Code(c0).value, Code(c1).value, Code(c2).value, Code(c3).value);
  }

  lemma EncodeShort(g: string)
    requires AllBytes(g) && 1 <= |g| <= 3
    ensures Encode(g) == EncodeGroup(g) && |EncodeGroup(g)| == 4
  {
    assert g[..|g|] == g;
    assert Encode(g[|g|..]) == "";
  }

  lemma EncodeStep(g: string, s: string)
    requires AllBytes(g) && |g| == 3 && AllBytes(s)
    ensures Encode(g + s) == EncodeGroup(g) + Encode(s)
  {
    assert (g + s)[..3] == g && (g + s)[3..] == s;
  }

  /** Encoding undoes decoding exactly on the canonical texts. */
  lemma {:induction false} EncodeUndoesDecode(t: string)
    ensures AllBytes(Decode(t).bytes)
    ensures Canonical(t) <==> Decode(t).ok && Encode(Decode(t).bytes) == t
  {
    hide Code, Letter, EncodeGroup, Encode, Byte0, Byte1, Byte2;
    DecodedBytes(t);
    if t == [] {
      EncodeNothing();
    } else {
      match DecodeGroup(t) {
        case Last(d) =>
          if d.ok {
            EncodeShort(d.bytes);
            if |t| == 4 && t[2] == '=' {
              OneByteBack(t[0], t[1]);
              assert t == [t[0], t[1], t[2], t[3]];
              assert t[2..] == [t[2], t[3]];
            } else if |t| == 4 {
              TwoBytesBack(t[0], t[1], t[2]);
              assert t == [t[0], t[1], t[2], t[3]];
            }
          }
        case Full(bytes) =>
          EncodeUndoesDecode(t[4..]);
          ThreeBytesBack(t[0], t[1], t[2], t[3]);
          EncodeStep(bytes, Decode(t[4..]).bytes);
          assert t == [t[0], t[1], t[2], t[3]] + t[4..];
          assert forall u: string :: [t[0], t[1], t[2], t[3]] + u == t ==> u == ([t[0], t[1], t[2], t[3]] + u)[4..] == t[4..];
      }
    }
  }

  /** Position of the first character that is not in the alphabet. */
  function Stop(t: string): (n: nat)
    ensures n <= |t|
  {
    if t == [] || Code(t[0]).None? then 0 else 1 + Stop(t[1..])
  }

  lemma StopOnGroup(t: string)
    requires t != []
    ensures match DecodeGroup(t)
            case Last(d) => Stop(t) < 4 && (d.ok <==> var n := Stop(t); if n == |t| then n != 1 else t[n] == '=' && n >= 2)
            case Full(_) => |t| >= 4 && Stop(t) == 4 + Stop(t[4..])
  {
    hide Code, Byte0, Byte1, Byte2;
    assert Code('=') == None by { NoCodeForPadding(); }
    if Code(t[0]).Some? && |t| >= 2 {
      assert Stop(t[1..]) == if Code(t[1]).None? then 0 else 1 + Stop(t[2..]) by { assert t[1..][1..] == t[2..]; }
      if Code(t[1]).Some? && |t| >= 3 {
        assert Stop(t[2..]) == if Code(t[2]).None? then 0 else 1 + Stop(t[3..]) by { assert t[2..][1..] == t[3..]; }
        if Code(t[2]).Some? && |t| >= 4 {
          assert Stop(t[3..]) == if Code(t[3]).None? then 0 else 1 + Stop(t[4..]) by { assert t[3..][1..] == t[4..]; }
        }
      }
    }
  }

  lemma NoCodeForPadding()
    ensures Code('=') == None
  {
  }

  /** What is accepted: letters that do not end one past a group, or letters up to a
      padding character in the third or fourth place of a group; what follows the
      padding character is not looked at. */
  lemma {:induction false} AcceptedExactlyWhen(t: string)
    ensures Decode(t).ok <==> var n := Stop(t); if n == |t| then n % 4 != 1 else t[n] == '=' && n % 4 >= 2
  {
    hide DecodeGroup, Code;
    if t != [] {
      StopOnGroup(t);
      if DecodeGroup(t).Full? {
        AcceptedExactlyWhen(t[4..]);
      }
    }
  }
}
