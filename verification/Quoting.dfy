/** The command line's quoting and escaping rules: characters, caret escapes, quoting. */
module Quoting {
  import opened Wrappers

  /** A character of a Python 2 byte string. */
  type Chr = c: char | c as int < 256 witness ' '
  type Str = seq<Chr>

  const CARET: Chr := '^'
  const DOUBLE: Chr := '"'
  const SINGLE: Chr := '\''

  /** Characters nobody can type at the prompt. */
  predicate Unallowable(c: Chr) {
    c as int < 32 || c as int > 126
  }

  /** XML data may also hold line ends and tabs. */
  predicate Unprintable(c: Chr) {
    Unallowable(c) && c != '\n' && c != '\r' && c != '\t'
  }

  predicate IsSpace(c: Chr) {
    c == ' ' || 9 <= c as int <= 13
  }

  function HexDigit(n: nat): Chr
    requires n < 16
  {
    if n < 10 then (48 + n) as char else (87 + n) as char
  }

  predicate IsHex(c: Chr) {
    '0' <= c <= '9' || 'a' <= c <= 'f' || 'A' <= c <= 'F'
  }

  function HexValue(c: Chr): (n: nat)
    requires IsHex(c)
    ensures n < 16
  {
    if '0' <= c <= '9' then c as int - 48
    else if 'a' <= c <= 'f' then c as int - 87
    else c as int - 55
  }

  /** ^xhh for a character that cannot appear as itself. */
  function HexEscape(c: Chr): (r: Str)
    ensures |r| == 4
  {
    [CARET, 'x', HexDigit(c as int / 16), HexDigit(c as int % 16)]
  }

  // ---- errors ----

  /** HexShort and HexInvalid carry one message in the source; they differ in position. */
  datatype Reason =
    | BadCharacter
    | CaretAtEnd
    | CaretBeforeBad
    | CaretBeforeInvalid(c: Chr)
    | HexShort(seen: Str)
    | HexInvalid
    | BareSpace
    | OpenSingle
    | OpenDouble
    | NoToken
    | ManyTokens

  datatype Error = Error(reason: Reason, tokenStart: nat, at: int)

  // ---- reading one caret escape ----

  datatype EscapeRead = Read(c: Chr, used: nat) | Bad(reason: Reason, offset: nat)

  /** s starts with a caret. `strict` says which characters count as bad after it:
      all unallowable ones, or only the unprintable ones. */
  function ReadEscape(s: Str, strict: bool): (r: EscapeRead)
    requires s != []
    ensures r.Read? ==> 2 <= r.used <= |s|
  {
    if |s| == 1 then Bad(CaretAtEnd, 0)
    else
      var n := s[1];
      if n != SINGLE && n != DOUBLE && n != CARET && n != 'x' then
        if (if strict then Unallowable(n) else Unprintable(n)) then Bad(CaretBeforeBad, 1)
        else Bad(CaretBeforeInvalid(n), 1)
      else if n != 'x' then Read(n, 2)
      else if |s| < 4 then Bad(HexShort(s[2..]), 1)
      else if !IsHex(s[2]) then Bad(HexInvalid, 2)
      else if !IsHex(s[3]) then Bad(HexInvalid, 3)
      else Read((HexValue(s[2]) * 16 + HexValue(s[3])) as char, 4)
  }

  /** Reads the caret escape at position i, check by check. */
  method ReadEscapeAt(line: Str, i: nat, strict: bool) returns (r: EscapeRead)
    requires i < |line|
    ensures r == ReadEscape(line[i..], strict)
  {
    if i == |line| - 1 {
      return Bad(CaretAtEnd, 0);
    }
    var next := line[i + 1];
    if next != SINGLE && next != DOUBLE && next != CARET && next != 'x' {
      if (strict && Unallowable(next)) || Unprintable(next) {
        return Bad(CaretBeforeBad, 1);
      } else {
        return Bad(CaretBeforeInvalid(next), 1);
      }
    }
    if next != 'x' {
      return Read(next, 2);
    }
    if i + 1 >= |line| - 2 {
      assert line[i..][2..] == line[i + 2..];
      return Bad(HexShort(line[i + 2..]), 1);
    }
    var hex1, hex2 := line[i + 2], line[i + 3];
    if !IsHex(hex1) {
      return Bad(HexInvalid, 2);
    }
    if !IsHex(hex2) {
      return Bad(HexInvalid, 3);
    }
    r := Read((HexValue(hex1) * 16 + HexValue(hex2)) as char, 4);
  }

  lemma HexDigits(n: nat)
    requires n < 16
    ensures IsHex(HexDigit(n)) && HexValue(HexDigit(n)) == n
    ensures !Unallowable(HexDigit(n)) && !IsSpace(HexDigit(n))
  {}

  /** A hex escape reads back as the character it stands for, whatever follows. */
  lemma HexEscapeReads(c: Chr, rest: Str, strict: bool)
    ensures ReadEscape(HexEscape(c) + rest, strict) == Read(c, 4)
  {}

  // ---- escape and unescape ----

  function EscapeChar(c: Chr): Str {
    if c == CARET then [CARET, CARET]
    else if Unprintable(c) then HexEscape(c)
    else [c]
  }

  function Escape(raw: Str): Str {
    if raw == [] then [] else EscapeChar(raw[0]) + Escape(raw[1..])
  }

  /** What remains to be unescaped from position pos, after `output`. */
  function UnescapeFrom(s: Str, pos: nat, output: Str): Result<Str, Error>
    decreases |s|
  {
    if s == [] then Ok(output)
    else if Unprintable(s[0]) then Err(Error(BadCharacter, 0, pos))
    else if s[0] != CARET then UnescapeFrom(s[1..], pos + 1, output + [s[0]])
    else
      match ReadEscape(s, false)
      case Bad(reason, offset) => Err(Error(reason, 0, pos + offset))
      case Read(c, used) => UnescapeFrom(s[used..], pos + used, output + [c])
  }

  method Unescape(escaped: Str) returns (r: Result<Str, Error>)
    ensures r == UnescapeFrom(escaped, 0, [])
  {
    var i := 0;
    var output: Str := [];
    while i < |escaped|
      invariant 0 <= i <= |escaped|
      invariant UnescapeFrom(escaped, 0, []) == UnescapeFrom(escaped[i..], i, output)
    {
      var c := escaped[i];
      if Unprintable(c) {
        return Err(Error(BadCharacter, 0, i));
      } else if c != CARET {
        output := output + [c];
      } else {
        var e := ReadEscapeAt(escaped, i, false);
        if e.Bad? {
          return Err(Error(e.reason, 0, i + e.offset));
        }
        assert escaped[i..][e.used..] == escaped[i + e.used..];
        output := output + [e.c];
        i := i + e.used - 1;
      }
      i := i + 1;
    }
    r := Ok(output);
  }

  lemma UnescapeOne(c: Chr, rest: Str, pos: nat, output: Str)
    ensures UnescapeFrom(EscapeChar(c) + rest, pos, output)
         == UnescapeFrom(rest, pos + |EscapeChar(c)|, output + [c])
  {}

  /** unescape undoes escape on every string. */
  lemma {:induction false} UnescapeUndoesEscape(raw: Str, pos: nat, output: Str)
    ensures UnescapeFrom(Escape(raw), pos, output) == Ok(output + raw)
    decreases |raw|
  {
    hide EscapeChar;
    if raw == [] {
      assert output + raw == output;
    } else {
      UnescapeOne(raw[0], Escape(raw[1..]), pos, output);
      UnescapeUndoesEscape(raw[1..], pos + |EscapeChar(raw[0])|, output + [raw[0]]);
      assert output + raw == (output + [raw[0]]) + raw[1..];
    }
  }

  /** Escaped text can be shown: nothing unprintable is left in it. */
  lemma {:induction false} EscapedIsPrintable(raw: Str)
    ensures forall c :: c in Escape(raw) ==> !Unprintable(c)
  {
    if raw != [] {
      EscapedIsPrintable(raw[1..]);
      HexDigits(raw[0] as int / 16);
      HexDigits(raw[0] as int % 16);
    }
  }

  // ---- the quoter ----

  /** One character inside a quoted token. */
  function AvertChar(c: Chr, escapeDouble: bool): Str {
    if c == CARET then [CARET, CARET]
    else if Unallowable(c) then HexEscape(c)
    else if escapeDouble && c == DOUBLE then [CARET, DOUBLE]
    else [c]
  }

  function Avert(raw: Str, escapeDouble: bool): Str {
    if raw == [] then [] else AvertChar(raw[0], escapeDouble) + Avert(raw[1..], escapeDouble)
  }

  lemma {:induction false} AvertSnoc(raw: Str, c: Chr, escapeDouble: bool)
    ensures Avert(raw + [c], escapeDouble) == Avert(raw, escapeDouble) + AvertChar(c, escapeDouble)
  {
    hide AvertChar;
    if raw == [] {
      assert Avert([c], escapeDouble) == AvertChar(c, escapeDouble) + Avert([c][1..], escapeDouble);
    } else {
      assert (raw + [c])[1..] == raw[1..] + [c];
      AvertSnoc(raw[1..], c, escapeDouble);
    }
  }

  method AvertUnallowable(raw: Str, escapeDouble: bool) returns (output: Str)
    ensures output == Avert(raw, escapeDouble)
  {
    output := [];
    for i := 0 to |raw|
      invariant output == Avert(raw[..i], escapeDouble)
    {
      AvertSnoc(raw[..i], raw[i], escapeDouble);
      assert raw[..i + 1] == raw[..i] + [raw[i]];
      if raw[i] == CARET {
        output := output + [CARET, CARET];
      } else if Unallowable(raw[i]) {
        output := output + HexEscape(raw[i]);
      } else if escapeDouble && raw[i] == DOUBLE {
        output := output + [CARET, DOUBLE];
      } else {
        output := output + [raw[i]];
      }
    }
    assert raw[..|raw|] == raw;
  }

  /** The characters that may not stand bare in a token. */
  predicate Special(c: Chr) {
    Unallowable(c) || c == ' ' || c == SINGLE || c == DOUBLE || c == CARET
  }

  predicate NeedsQuotes(raw: Str) {
    raw == [] || exists i :: 0 <= i < |raw| && Special(raw[i])
  }

  /** The canonical command-line form of a string. */
  function Quote(raw: Str, force: bool): Str {
    if raw == [] then [DOUBLE, DOUBLE]
    else if !force && !NeedsQuotes(raw) then raw
    else if DOUBLE !in raw then [DOUBLE] + Avert(raw, false) + [DOUBLE]
    else if SINGLE !in raw then [SINGLE] + Avert(raw, false) + [SINGLE]
    else [DOUBLE] + Avert(raw, true) + [DOUBLE]
  }

  lemma {:induction false} AvertedIsEnterable(raw: Str, escapeDouble: bool)
    ensures forall c :: c in Avert(raw, escapeDouble) ==> !Unallowable(c)
  {
    if raw != [] {
      AvertedIsEnterable(raw[1..], escapeDouble);
      HexDigits(raw[0] as int / 16);
      HexDigits(raw[0] as int % 16);
    }
  }

  /** A quoted string can be typed at the prompt. */
  lemma QuotedIsEnterable(raw: Str, force: bool)
    ensures forall c :: c in Quote(raw, force) ==> !Unallowable(c)
  {
    AvertedIsEnterable(raw, false);
    AvertedIsEnterable(raw, true);
    if raw != [] && !NeedsQuotes(raw) {
      forall c | c in raw
        ensures !Unallowable(c)
      {
        var i :| 0 <= i < |raw| && raw[i] == c;
        assert !Special(raw[i]);
      }
    }
  }
}
