/** Writing a string with escapes, and scanning a quoted string. */
module StringEscapes {
  import opened Basics

  type Byte = c: char | (c as int) < 256 witness '0'

  const NUL: Byte := '\0'
  const BELL: Byte := 7 as char
  const BACKSPACE: Byte := 8 as char
  const VTAB: Byte := 11 as char
  const FORMFEED: Byte := 12 as char
  const QUOTE: Byte := '\"'
  const BACKSLASH: Byte := '\\'

  // ---- the tables ----

  predicate IsCntrl(c: Byte) { c < ' ' || c as int == 127 }

  predicate IsAlphanum(c: Byte) { '0' <= c <= '9' || 'a' <= c <= 'z' || 'A' <= c <= 'Z' || c == '_' }

  /** One more than the value of a digit, and zero for other characters. */
  function BiasedDigit(c: Byte): (d: nat)
    ensures d <= 16
  {
    if '0' <= c <= '9' then c as int - '0' as int + 1
    else if 'a' <= c <= 'f' then c as int - 'a' as int + 11
    else if 'A' <= c <= 'F' then c as int - 'A' as int + 11
    else 0
  }

  /** The character that a letter stands for behind a backslash. */
  function UnescapeChar(c: Byte): Byte {
    if c == 'a' then BELL
    else if c == 'b' then BACKSPACE
    else if c == 'f' then FORMFEED
    else if c == 'n' then '\n'
    else if c == 'r' then '\r'
    else if c == 't' then '\t'
    else if c == 'v' then VTAB
    else if c == BACKSLASH || c == '\'' || c == QUOTE || c == '?' then c
    else NUL
  }

  /** The letter that stands for a character, if there is one. */
  function EscapeLetter(c: Byte): Option<Byte> {
    if c == NUL then Some('0')
    else if c == BELL then Some('a')
    else if c == BACKSPACE then Some('b')
    else if c == FORMFEED then Some('f')
    else if c == '\n' then Some('n')
    else if c == '\r' then Some('r')
    else if c == '\t' then Some('t')
    else if c == VTAB then Some('v')
    else if c == BACKSLASH || c == '\'' || c == QUOTE || c == '?' then Some(c)
    else None
  }

  // ---- writing ----

  function HexDigit(d: nat): Byte
    requires d < 16
  {
    if d < 10 then (d + '0' as int) as char else (d - 10 + 'a' as int) as char
  }

  function Hex(v: nat): (h: seq<Byte>)
    ensures h != []
  {
    if v < 16 then [HexDigit(v)] else Hex(v / 16) + [HexDigit(v % 16)]
  }

  function ZeroChars(n: nat): seq<Byte> { if n == 0 then [] else ZeroChars(n - 1) + ['0'] }

  /** Digits with zeros in front, to the precision asked for. */
  function Padded(h: seq<Byte>, precision: nat): seq<Byte> {
    ZeroChars(if precision > |h| then precision - |h| else 0) + h
  }

  /** A byte of a signed char type as an unsigned int. */
  function Promoted(c: Byte): nat {
    if c as int < 128 then c as int else c as int + 0xFFFF_FF00
  }

  /** How one character is written. */
  function EscapeChar(c: Byte, extra: Byte): seq<Byte> {
    match EscapeLetter(c)
    case Some(l) => [BACKSLASH, l]
    case None => if IsCntrl(c) || c == extra then [BACKSLASH, 'x'] + Padded(Hex(Promoted(c)), 2) else [c]
  }

  function Escaped(s: seq<Byte>, extra: Byte): seq<Byte> {
    if s == [] then [] else EscapeChar(s[0], extra) + Escaped(s[1..], extra)
  }

  lemma {:induction false} EscapedSnoc(s: seq<Byte>, c: Byte, extra: Byte)
    ensures Escaped(s + [c], extra) == Escaped(s, extra) + EscapeChar(c, extra)
  {
    if s == [] {
      assert [] + [c] == [c] && [c][1..] == [];
    } else {
      assert (s + [c])[1..] == s[1..] + [c];
      EscapedSnoc(s[1..], c, extra);
    }
  }

  /** Writes the digits of a number backwards into a buffer. */
  method DigitsBackwards(value: nat) returns (tempBuf: array<Byte>, len: nat)
    requires value < 0x1_0000_0000
    ensures len <= tempBuf.Length && Reverse(tempBuf[..len]) == Hex(value)
  {
    tempBuf := new Byte[32](_ => '0');
    var v: nat := value / 16;
    len := 1;
    tempBuf[0] := HexDigit(value % 16);
    FirstDigit(value, tempBuf[..1]);
    TopDigits(value);
    hide Pow16, Reverse, Hex, HexDigit, DigitsSoFar;
    while v > 0 && len < 32
      invariant 1 <= len <= 8 && v < Pow16(8 - len) && DigitsSoFar(value, v, tempBuf[..len])
      decreases v
    {
      Pow16Step(v, 8 - len);
      NextDigit(value, v, tempBuf[..len]);
      tempBuf[len] := HexDigit(v % 16);
      assert tempBuf[..len + 1] == tempBuf[..len] + [tempBuf[len]];
      v := v / 16;
      len := len + 1;
    }
    Pow16Zero(v, 8 - len);
    LastDigit(value, tempBuf[..len]);
  }

  /** The digits written so far, read backwards, end the number; v is what is left of it. */
  predicate DigitsSoFar(value: nat, v: nat, low: seq<Byte>) {
    Hex(value) == (if v == 0 then [] else Hex(v)) + Reverse(low)
  }

  lemma TopDigits(value: nat)
    requires value < 0x1_0000_0000
    ensures value / 16 < Pow16(7)
  {
    assert Pow16(7) == 0x1000_0000;
  }

  lemma FirstDigit(value: nat, low: seq<Byte>)
    requires low == [HexDigit(value % 16)]
    ensures DigitsSoFar(value, value / 16, low)
  {
    HexStep(value);
    ReverseSnoc([], low[0]);
    assert Reverse(low) == low;
  }

  lemma NextDigit(value: nat, v: nat, low: seq<Byte>)
    requires v > 0 && DigitsSoFar(value, v, low)
    ensures DigitsSoFar(value, v / 16, low + [HexDigit(v % 16)])
  {
    HexStep(v);
    ReverseSnoc(low, HexDigit(v % 16));
    hide Hex, HexDigit, Reverse;
  }

  lemma LastDigit(value: nat, low: seq<Byte>)
    requires DigitsSoFar(value, 0, low)
    ensures Reverse(low) == Hex(value)
  {
    hide Hex, Reverse;
  }

  lemma Pow16Zero(v: nat, n: nat)
    requires v < Pow16(n)
    ensures n == 0 ==> v == 0
  {
  }

  lemma ReverseSnoc(s: seq<Byte>, c: Byte)
    ensures Reverse(s + [c]) == [c] + Reverse(s)
  {
    assert (s + [c])[..|s|] == s;
  }

  lemma Pow16Step(v: nat, n: nat)
    requires 0 < v < Pow16(n)
    ensures n > 0 && v / 16 < Pow16(n - 1)
  {
  }

  lemma HexStep(v: nat)
    ensures Hex(v) == if v / 16 == 0 then [HexDigit(v % 16)] else Hex(v / 16) + [HexDigit(v % 16)]
  {
  }

  /** Prints a number in hexadecimal, with at least so many digits. */
  method PrintHex(value: nat, precision: nat) returns (out: seq<Byte>)
    requires value < 0x1_0000_0000
    ensures out == Padded(Hex(value), precision)
  {
    var tempBuf, len := DigitsBackwards(value);
    ReverseLength(tempBuf[..len]);
    hide Hex;
    ghost var digits := Hex(value);
    var zeroPad: nat := if precision > len then precision - len else 0;
    ghost var k: nat := zeroPad;
    out := [];
    while zeroPad > 0
      invariant zeroPad <= k && out == ZeroChars(k - zeroPad)
    {
      out := out + ['0'];
      zeroPad := zeroPad - 1;
    }
    ghost var zeros := out;
    while len > 0
      invariant 0 <= len <= tempBuf.Length && out + Reverse(tempBuf[..len]) == zeros + digits
    {
      assert tempBuf[..len][..len - 1] == tempBuf[..len - 1];
      len := len - 1;
      out := out + [tempBuf[len]];
    }
  }

  lemma {:induction false} ReverseLength(s: seq<Byte>)
    ensures |Reverse(s)| == |s|
  {
    if s != [] { ReverseLength(s[..|s| - 1]); }
  }

  function Reverse(s: seq<Byte>): seq<Byte> { if s == [] then [] else [s[|s| - 1]] + Reverse(s[..|s| - 1]) }

  function Pow16(n: nat): nat { if n == 0 then 1 else 16 * Pow16(n - 1) }

  /** Writes a string with its escapes, and the NUL. */
  method CstrEscape(str: seq<Byte>, extraEscape: Byte) returns (result: seq<Byte>)
    ensures result == Escaped(str, extraEscape) + [NUL]
  {
    result := [];
    var i := 0;
    while i < |str|
      invariant 0 <= i <= |str| && result == Escaped(str[..i], extraEscape)
    {
      assert str[..i + 1] == str[..i] + [str[i]];
      EscapedSnoc(str[..i], str[i], extraEscape);
      var c := str[i];
      var letter := EscapeLetter(c);
      if letter.Some? {
        result := result + [BACKSLASH, letter.value];
      } else if IsCntrl(c) || c == extraEscape {
        var hex := PrintHex(Promoted(c), 2);
        result := result + ([BACKSLASH, 'x'] + hex);
      } else {
        result := result + [c];
      }
      i := i + 1;
    }
    assert str[..i] == str;
    result := result + [NUL];
  }

  // ---- scanning ----

  datatype LexError = BadHexDigit | BadEscape | SpansLines | EndOfFile

  /** A text that can be scanned: NUL at its end, and no backslash right before a NUL. */
  predicate Scannable(text: seq<Byte>) {
    text != [] && text[|text| - 1] == NUL &&
    forall i :: 0 <= i < |text| - 1 && text[i] == BACKSLASH ==> text[i + 1] != NUL
  }

  /** Where a word that starts at i ends. */
  function WordEnd(text: seq<Byte>, i: nat): (e: nat)
    requires Scannable(text) && i < |text|
    ensures i <= e < |text|
    decreases |text| - i
  {
    if text[i] != NUL && IsAlphanum(text[i]) then WordEnd(text, i + 1) else i
  }

  /** A character of a string, where the scan goes on, and what was reported. */
  datatype Piece = Piece(c: Byte, at: nat, errors: seq<LexError>)

  /** One or two hexadecimal digits; without any, the rest of the word is skipped. */
  function HexPiece(text: seq<Byte>, i: nat): (p: Piece)
    requires Scannable(text) && i < |text|
    ensures i <= p.at < |text|
  {
    var first := BiasedDigit(text[i]);
    if first == 0 then Piece('?', WordEnd(text, i), [BadHexDigit])
    else
      var second := BiasedDigit(text[i + 1]);
      if second == 0 then Piece((first - 1) as char, i + 1, [])
      else Piece((16 * (first - 1) + second - 1) as char, i + 2, [])
  }

  predicate InString(c: Byte) { c != NUL && c != QUOTE && c != '\n' }

  /** The next character of a string: as it is, or escaped. */
  function ReadPiece(text: seq<Byte>, i: nat): (p: Piece)
    requires Scannable(text) && i < |text| && InString(text[i])
    ensures i < p.at < |text|
  {
    if text[i] != BACKSLASH then Piece(text[i], i + 1, [])
    else if text[i + 1] == 'x' || text[i + 1] == 'X' then HexPiece(text, i + 2)
    else
      var c := UnescapeChar(text[i + 1]);
      Piece(c, i + 2, if c == NUL && text[i + 1] != '0' then [BadEscape] else [])
  }

  datatype Scan = Scan(str: seq<Byte>, at: nat, errors: seq<LexError>)

  /** The characters up to the closing quote, the end of the line, or the end of the text. */
  function Body(text: seq<Byte>, i: nat): (r: Scan)
    requires Scannable(text) && i < |text|
    ensures i <= r.at < |text| && !InString(text[r.at])
    decreases |text| - i
  {
    if !InString(text[i]) then Scan([], i, []) else
      var p := ReadPiece(text, i);
      var r := Body(text, p.at);
      Scan([p.c] + r.str, r.at, p.errors + r.errors)
  }

  /** What the character that ends the scan makes of it. */
  function Closing(text: seq<Byte>, r: Scan): Scan
    requires r.at < |text|
  {
    if text[r.at] == QUOTE then Scan(r.str, r.at + 1, r.errors)
    else if text[r.at] == '\n' then
      Scan(r.str, if r.at + 1 < |text| && text[r.at + 1] == QUOTE then r.at + 2 else r.at + 1, r.errors + [SpansLines])
    else Scan(r.str, r.at, r.errors + [EndOfFile])
  }

  class Lexer {
    const text: seq<Byte>
    var at: nat
    var errors: seq<LexError>
    /** Where the lines begin. */
    var lines: seq<nat>

    constructor (text: seq<Byte>)
      ensures this.text == text && at == 0 && errors == [] && lines == []
    {
      this.text, at, errors, lines := text, 0, [], [];
    }

    predicate Valid()
      reads this
    {
      Scannable(text) && at < |text|
    }

    method SkipWordEnd()
      requires Valid()
      modifies `at
      ensures Valid() && at == WordEnd(text, old(at))
    {
      while text[at] != NUL && IsAlphanum(text[at])
        invariant at < |text| && WordEnd(text, at) == WordEnd(text, old(at))
        decreases |text| - at
      {
        at := at + 1;
      }
    }

    /** Scans the digits of a hexadecimal escape; the value is negative if there is none. */
    method ScanHexEscape() returns (value: int)
      requires Valid()
      modifies `at, `errors
      ensures Valid() && -1 <= value < 256
      ensures value < 0 <==> BiasedDigit(text[old(at)]) == 0
      ensures value < 0 ==> at == old(at) && errors == old(errors) + [BadHexDigit]
      ensures value >= 0 ==> errors == old(errors) && Piece(value as char, at, []) == HexPiece(text, old(at))
    {
      var biased := BiasedDigit(text[at]);
      if biased == 0 {
        errors := errors + [BadHexDigit];
        return -1;
      }
      value := biased - 1;
      at := at + 1;
      biased := BiasedDigit(text[at]);
      if biased != 0 {
        value := value * 16 + (biased - 1);
        at := at + 1;
      }
    }

    /** Scans one character of a string. */
    method ScanStringChar() returns (c: Byte)
      requires Valid() && InString(text[at])
      modifies `at, `errors
      ensures Valid() && var p := ReadPiece(text, old(at)); c == p.c && at == p.at && errors == old(errors) + p.errors
    {
      c := text[at];
      if c == BACKSLASH {
        at := at + 1;
        c := text[at];
        if c == 'x' || c == 'X' {
          at := at + 1;
          var hexVal := ScanHexEscape();
          if hexVal < 0 {
            SkipWordEnd();
            c := '?';
          } else {
            c := hexVal as char;
          }
        } else {
          c := UnescapeChar(text[at]);
          if c == NUL && text[at] != '0' {
            errors := errors + [BadEscape];
          }
          at := at + 1;
        }
      } else {
        at := at + 1;
      }
    }

    /** Scans a string literal. */
    method ScanString() returns (str: seq<Byte>)
      requires Valid() && text[at] == QUOTE
      modifies this
      ensures Valid()
      ensures var r := Closing(text, Body(text, old(at) + 1));
        str == r.str && at == r.at && errors == old(errors) + r.errors
      ensures lines == old(lines) + if text[Body(text, old(at) + 1).at] == '\n' then [Body(text, old(at) + 1).at + 1]
        else []
    {
      hide Body, ReadPiece;
      at := at + 1;
      str := ScanBody();
      ghost var before := errors;
      if text[at] == QUOTE {
        at := at + 1;
      } else if text[at] == '\n' {
        errors := errors + [SpansLines];
        lines := lines + [at + 1];
        at := at + 1;
        if text[at] == QUOTE {
          at := at + 1;
        }
      } else {
        errors := errors + [EndOfFile];
      }
    }

    /** Scans the characters of a string. */
    method ScanBody() returns (str: seq<Byte>)
      requires Valid()
      modifies `at, `errors
      ensures Valid() && var r := Body(text, old(at)); str == r.str && at == r.at && errors == old(errors) + r.errors
    {
      hide ReadPiece, Scannable, IsAlphanum, Body;
      BodyEnds(text);
      str := [];
      ghost var whole := Body(text, at);
      while InString(text[at])
        invariant Valid()
        invariant var r := Body(text, at);
                  whole.str == str + r.str && whole.at == r.at && old(errors) + whole.errors == errors + r.errors
        decreases |text| - at
      {
        BodyGoesOn(text, at);
        var c := ScanStringChar();
        str := str + [c];
      }
    }
  }

  lemma BodyEnds(text: seq<Byte>)
    requires Scannable(text)
    ensures forall i: nat :: i < |text| && !InString(text[i]) ==> Body(text, i) == Scan([], i, [])
  {
  }

  lemma BodyGoesOn(text: seq<Byte>, i: nat)
    requires Scannable(text) && i < |text| && InString(text[i])
    ensures var p := ReadPiece(text, i);
            var r := Body(text, p.at);
            Body(text, i) == Scan([p.c] + r.str, r.at, p.errors + r.errors)
  {
  }

  // ---- the tables, number by number ----

  /** The letters that may stand behind a backslash and the characters they stand for, by their numbers in ASCII:
      a, b, t, n, v, f, r and 0, then backslash, the two quotes and the question mark, which stand for themselves. */
  const LETTERS: seq<(nat, nat)> := [(97, 7), (98, 8), (116, 9), (110, 10), (118, 11), (102, 12), (114, 13), (48, 0),
                                     (92, 92), (39, 39), (34, 34), (63, 63)]

  /** The character is a hexadecimal digit with the value v, of either case. */
  predicate DigitOf(c: Byte, v: nat) {
    var n := c as int;
    if v < 10 then n == 48 + v else v < 16 && (n == 55 + v || n == 87 + v)
  }

  ghost predicate IsDigit(c: Byte) { exists v: nat :: DigitOf(c, v) }

  predicate NoLetter(c: Byte) { forall k :: 0 <= k < |LETTERS| ==> LETTERS[k].0 != c as int }

  /** An escape of one letter is the character the table gives; any other letter but x is reported. */
  lemma LetterEscapes(text: seq<Byte>, i: nat)
    requires Scannable(text) && i + 1 < |text| && text[i] as int == 92 && text[i + 1] as int !in {88, 120}
    ensures InString(text[i])
    ensures forall k :: 0 <= k < |LETTERS| && text[i + 1] as int == LETTERS[k].0 ==>
      ReadPiece(text, i) == Piece(LETTERS[k].1 as char, i + 2, [])
    ensures NoLetter(text[i + 1]) ==> ReadPiece(text, i) == Piece(0 as char, i + 2, [BadEscape])
  {
    var c := text[i + 1];
    forall k | 0 <= k < |LETTERS| && c as int == LETTERS[k].0
      ensures UnescapeChar(c) as int == LETTERS[k].1 && (c == '0' || UnescapeChar(c) != NUL) {}
    if UnescapeChar(c) != NUL || c == '0' {
      LetterListed(c);
    }
  }

  lemma LetterListed(c: Byte)
    requires UnescapeChar(c) != NUL || c == '0'
    ensures !NoLetter(c)
  {
    var k := if c == 'a' then 0 else if c == 'b' then 1 else if c == 't' then 2 else if c == 'n' then 3
             else if c == 'v' then 4 else if c == 'f' then 5 else if c == 'r' then 6 else if c == '0' then 7
             else if c == BACKSLASH then 8 else if c == '\'' then 9 else if c == QUOTE then 10 else 11;
    assert LETTERS[k].0 == c as int;
  }

  /** An escape with x in either case is the number of its one or two digits; without a digit it is reported. */
  lemma HexEscapes(text: seq<Byte>, i: nat, v: nat, w: nat)
    requires Scannable(text) && i + 1 < |text| && text[i] as int == 92 && text[i + 1] as int in {88, 120}
    ensures InString(text[i]) && i + 2 < |text| && (IsDigit(text[i + 2]) ==> i + 3 < |text|)
    ensures !IsDigit(text[i + 2]) ==> ReadPiece(text, i) == Piece('?', WordEnd(text, i + 2), [BadHexDigit])
    ensures DigitOf(text[i + 2], v) && !IsDigit(text[i + 3]) ==>
      ReadPiece(text, i) == Piece(v as char, i + 3, [])
    ensures DigitOf(text[i + 2], v) && DigitOf(text[i + 3], w) ==>
      ReadPiece(text, i) == Piece((16 * v + w) as char, i + 4, [])
  {
    DigitValue(text[i + 2], v);
    if IsDigit(text[i + 2]) { DigitValue(text[i + 3], w); }
  }

  lemma DigitValue(c: Byte, v: nat)
    ensures DigitOf(c, v) <==> BiasedDigit(c) == v + 1
    ensures IsDigit(c) <==> BiasedDigit(c) > 0
  {
    if BiasedDigit(c) > 0 { assert DigitOf(c, BiasedDigit(c) - 1); }
  }

  /** A letter, a digit or the underscore, by its number. */
  predicate InWord(c: Byte) {
    48 <= c as int <= 57 || 65 <= c as int <= 90 || c as int == 95 || 97 <= c as int <= 122
  }

  /** A word is the letters, digits and underscores up to the first other character. */
  lemma {:induction false} WordEndRight(text: seq<Byte>, i: nat)
    requires Scannable(text) && i < |text|
    ensures var e := WordEnd(text, i); !InWord(text[e]) && forall k :: i <= k < e ==> InWord(text[k])
    decreases |text| - i
  {
    if text[i] != NUL && IsAlphanum(text[i]) { WordEndRight(text, i + 1); }
  }

  /** Up to the first NUL, line feed, quote or backslash a string is read as it stands; and each of the first three
      ends it: a quote belongs to it, a line feed is reported and skipped with a quote behind it, a NUL is reported. */
  lemma {:induction false} PlainScan(text: seq<Byte>, i: nat, j: nat)
    requires Scannable(text) && i <= j < |text| && text[j] as int in {0, 10, 34}
    requires forall k :: i <= k < j ==> text[k] as int !in {0, 10, 34, 92}
    ensures Body(text, i) == Scan(text[i..j], j, [])
    ensures Closing(text, Body(text, i)) ==
      if text[j] as int == 34 then Scan(text[i..j], j + 1, [])
      else if text[j] as int == 0 then Scan(text[i..j], j, [EndOfFile])
      else Scan(text[i..j], if text[j + 1] as int == 34 then j + 2 else j + 1, [SpansLines])
    decreases j - i
  {
    if i < j {
      assert text[i] != NUL;
      BodyGoesOn(text, i);
      PlainScan(text, i + 1, j);
      assert [text[i]] + text[i + 1..j] == text[i..j];
    }
    assert text[j] as int == 10 ==> j + 1 < |text|;
  }

  predicate LowerDigitOf(c: Byte, v: nat) { DigitOf(c, v) && !(65 <= c as int <= 70) }

  /** Digits that denote a number, without capitals. */
  predicate Denotes(h: seq<Byte>, v: nat) {
    if h == [] then v == 0 else LowerDigitOf(h[|h| - 1], v % 16) && Denotes(h[..|h| - 1], v / 16)
  }

  lemma {:induction false} HexDenotes(v: nat)
    ensures Denotes(Hex(v), v) && (|Hex(v)| > 1 ==> Hex(v)[0] as int != 48)
  {
    var h := Hex(v);
    if v < 16 {
      assert h[..0] == [] && Denotes([], 0);
    } else {
      HexDenotes(v / 16);
      assert h[..|h| - 1] == Hex(v / 16);
      assert v / 16 < 16 ==> Hex(v / 16)[0] == HexDigit(v / 16);
      assert h[0] == Hex(v / 16)[0];
    }
  }

  lemma {:induction false} ZerosDenote(n: nat, h: seq<Byte>, v: nat)
    requires Denotes(h, v)
    ensures Denotes(ZeroChars(n) + h, v) && |ZeroChars(n)| == n
    decreases n + |h|
  {
    var w := ZeroChars(n) + h;
    if h == [] {
      if n > 0 {
        ZerosDenote(n - 1, [], 0);
        assert w == ZeroChars(n - 1) + ['0'] && w[..|w| - 1] == ZeroChars(n - 1) + [];
      }
    } else {
      ZerosDenote(n, h[..|h| - 1], v / 16);
      assert w[..|w| - 1] == ZeroChars(n) + h[..|h| - 1];
    }
  }

  /** Padding denotes the same number: of at least so many digits, and of no more than needed. */
  lemma PaddedDenotes(v: nat, precision: nat)
    ensures var w := Padded(Hex(v), precision);
      Denotes(w, v) && |w| >= precision && (|w| > precision && |w| > 1 ==> w[0] as int != 48)
  {
    HexDenotes(v);
    ZerosDenote(if precision > |Hex(v)| then precision - |Hex(v)| else 0, Hex(v), v);
  }

  /** How a character is written: by the table, or as x and the number of the char extended to 32 bits when it is a
      control character or the extra one, or else as it is. */
  lemma EscapesWritten(c: Byte, extra: Byte)
    ensures forall k :: 0 <= k < |LETTERS| && c as int == LETTERS[k].1 ==>
      EscapeChar(c, extra) == [92 as char, LETTERS[k].0 as char]
    ensures (forall k :: 0 <= k < |LETTERS| ==> c as int != LETTERS[k].1) ==>
      if c as int < 32 || c as int == 127 || c == extra then
        var w := EscapeChar(c, extra);
        |w| == (if c as int < 128 then 4 else 10) && w[0] as int == 92 && w[1] as int == 120 &&
        Denotes(w[2..], if c as int < 128 then c as int else 0x1_0000_0000 - 256 + c as int)
      else EscapeChar(c, extra) == [c]
  {
    hide EscapeLetter, EscapeChar, Denotes, IsCntrl;
    forall k | 0 <= k < |LETTERS| && c as int == LETTERS[k].1
      ensures EscapeChar(c, extra) == [92 as char, LETTERS[k].0 as char] { ListedWritten(c, extra, k); }
    if EscapeLetter(c).Some? { WrittenListed(c); } else { UnlistedWritten(c, extra); }
  }

  lemma ListedWritten(c: Byte, extra: Byte, k: nat)
    requires k < |LETTERS| && c as int == LETTERS[k].1
    ensures EscapeChar(c, extra) == [92 as char, LETTERS[k].0 as char]
  {
    hide Hex, Padded, IsCntrl;
    assert EscapeLetter(c) == Some(LETTERS[k].0 as char);
  }

  lemma WrittenListed(c: Byte)
    requires EscapeLetter(c).Some?
    ensures exists k :: 0 <= k < |LETTERS| && c as int == LETTERS[k].1
  {
    var k := if c as int == 0 then 7 else if 7 <= c as int <= 13 then c as int - 7
             else if c == BACKSLASH then 8 else if c == '\'' then 9 else if c == QUOTE then 10 else 11;
    assert c as int == LETTERS[k].1;
  }

  lemma UnlistedWritten(c: Byte, extra: Byte)
    requires EscapeLetter(c).None?
    ensures if c as int < 32 || c as int == 127 || c == extra then
        var w := EscapeChar(c, extra);
        |w| == (if c as int < 128 then 4 else 10) && w[0] as int == 92 && w[1] as int == 120 &&
        Denotes(w[2..], if c as int < 128 then c as int else 0x1_0000_0000 - 256 + c as int)
      else EscapeChar(c, extra) == [c]
  {
    hide Hex, HexDigit, Denotes, EscapeLetter, Padded;
    if IsCntrl(c) || c == extra {
      if c as int < 128 { TwoDigits(c); } else { EightDigits(c); }
      PaddedDenotes(Promoted(c), 2);
      assert EscapeChar(c, extra)[2..] == Padded(Hex(Promoted(c)), 2);
    }
  }

  // ---- writing, then scanning ----

  /** A character that is written with eight digits, of which two are read back. */
  predicate Widened(c: Byte, extra: Byte) { c == extra && c as int >= 128 }

  /** What the scan makes of one written character. */
  function ReadBack(c: Byte, extra: Byte): seq<Byte> {
    if Widened(c, extra) then [255 as char] + ['f', 'f', 'f', 'f'] +
      [HexDigit(c as int / 16), HexDigit(c as int % 16)] else [c]
  }

  function AllReadBack(s: seq<Byte>, extra: Byte): seq<Byte> {
    if s == [] then [] else ReadBack(s[0], extra) + AllReadBack(s[1..], extra)
  }

  /** The text has w at i. */
  predicate HasAt(text: seq<Byte>, i: nat, w: seq<Byte>) { i + |w| <= |text| && text[i..i + |w|] == w }

  lemma BiasedHex(d: nat)
    requires d < 16
    ensures BiasedDigit(HexDigit(d)) == d + 1 && InString(HexDigit(d)) && HexDigit(d) != BACKSLASH
  {
  }

  lemma TwoDigits(c: Byte)
    requires c as int < 128
    ensures Padded(Hex(Promoted(c)), 2) == [HexDigit(c as int / 16), HexDigit(c as int % 16)]
  {
    assert ZeroChars(1) == ['0'] && ZeroChars(0) == [];
  }

  lemma EightDigits(c: Byte)
    requires c as int >= 128
    ensures Padded(Hex(Promoted(c)), 2) == ['f', 'f', 'f', 'f', 'f', 'f', HexDigit(c as int / 16),
      HexDigit(c as int % 16)]
  {
    var v := Promoted(c);
    assert v / 16 == 0xFFF_FFF0 + c as int / 16 && v % 16 == c as int % 16;
    assert Hex(v) == Hex(v / 16) + [HexDigit(v % 16)];
    assert Hex(v / 16) == Hex(0xFF_FFFF) + [HexDigit(c as int / 16)];
    assert Hex(0xFF_FFFF) == Hex(0xF_FFFF) + ['f'];
    assert Hex(0xF_FFFF) == Hex(0xFFFF) + ['f'];
    assert Hex(0xFFFF) == Hex(0xFFF) + ['f'];
    assert Hex(0xFFF) == Hex(0xFF) + ['f'];
    assert Hex(0xFF) == Hex(0xF) + ['f'];
  }

  /** One written character is read back as planned, and the scan goes on behind it. */
  lemma CharReadsBack(text: seq<Byte>, i: nat, c: Byte, extra: Byte)
    requires Scannable(text) && HasAt(text, i, EscapeChar(c, extra)) && i + |EscapeChar(c, extra)| < |text|
    ensures var j := i + |EscapeChar(c, extra)|;
            var r := Body(text, j);
            Body(text, i) == Scan(ReadBack(c, extra) + r.str, r.at, r.errors)
  {
    hide Body, Scannable, Hex, UnescapeChar, HexPiece, BiasedDigit;
    var w := EscapeChar(c, extra);
    if EscapeLetter(c).Some? {
      LetterReadsBack(text, i, c, EscapeLetter(c).value);
      PieceThenBody(text, i, c, i + 2);
    } else if !(IsCntrl(c) || c == extra) {
      assert text[i] == text[i..i + 1][0] == c;
      PieceThenBody(text, i, c, i + 1);
    } else if c as int < 128 {
      TwoDigits(c);
      HexReadsBack(text, i, c as int / 16, c as int % 16);
      PieceThenBody(text, i, c, i + 4);
    } else {
      EightDigits(c);
      WideReadsBack(text, i, c);
    }
  }

  lemma PieceThenBody(text: seq<Byte>, i: nat, c: Byte, j: nat)
    requires Scannable(text) && i < |text| && InString(text[i]) && j < |text| && ReadPiece(text, i) == Piece(c, j, [])
    ensures var r := Body(text, j); Body(text, i) == Scan([c] + r.str, r.at, r.errors)
  {
    hide ReadPiece, Scannable;
  }

  lemma WideReadsBack(text: seq<Byte>, i: nat, c: Byte)
    requires Scannable(text) && c as int >= 128
    requires var w := [BACKSLASH, 'x', 'f', 'f', 'f', 'f', 'f', 'f', HexDigit(c as int / 16), HexDigit(c as int % 16)];
             HasAt(text, i, w) && i + |w| < |text|
    ensures var r := Body(text, i + 10); Body(text, i) == Scan(ReadBack(c, c) + r.str, r.at, r.errors)
  {
    hide Body, Scannable, ReadPiece, HasAt;
    var head, tail := [BACKSLASH, 'x', 'f', 'f'],
      ['f', 'f', 'f', 'f', HexDigit(c as int / 16), HexDigit(c as int % 16)];
    assert head + tail == [BACKSLASH, 'x', 'f', 'f', 'f', 'f', 'f', 'f', HexDigit(c as int / 16),
      HexDigit(c as int % 16)];
    HasAtParts(text, i, head, tail);
    assert HexDigit(15) == 'f';
    BiasedHex(c as int / 16);
    BiasedHex(c as int % 16);
    hide HexDigit;
    HexReadsBack(text, i, 15, 15);
    PieceThenBody(text, i, 255 as char, i + 4);
    RawReadsBack(text, i + 4, tail);
  }

  lemma HasAtParts(text: seq<Byte>, i: nat, a: seq<Byte>, b: seq<Byte>)
    requires HasAt(text, i, a + b)
    ensures HasAt(text, i, a) && HasAt(text, i + |a|, b) && i + |a| + |b| <= |text|
  {
    var w := text[i..i + |a + b|];
    assert text[i..i + |a|] == w[..|a|] && text[i + |a|..i + |a| + |b|] == w[|a|..];
  }

  lemma LetterReadsBack(text: seq<Byte>, i: nat, c: Byte, l: Byte)
    requires Scannable(text) && EscapeLetter(c) == Some(l) && i + 2 < |text| && HasAt(text, i, [BACKSLASH, l])
    ensures text[i] == BACKSLASH && ReadPiece(text, i) == Piece(c, i + 2, [])
  {
    assert text[i] == text[i..i + 2][0] && text[i + 1] == text[i..i + 2][1];
  }

  lemma HexReadsBack(text: seq<Byte>, i: nat, a: nat, b: nat)
    requires Scannable(text) && a < 16 && b < 16 && i + 4 < |text|
    requires HasAt(text, i, [BACKSLASH, 'x', HexDigit(a), HexDigit(b)])
    ensures text[i] == BACKSLASH && ReadPiece(text, i) == Piece((16 * a + b) as char, i + 4, [])
  {
    var w := text[i..i + 4];
    assert text[i] == w[0] && text[i + 1] == w[1] && text[i + 2] == w[2] && text[i + 3] == w[3];
    BiasedHex(a);
    BiasedHex(b);
  }

  lemma {:induction false} RawReadsBack(text: seq<Byte>, i: nat, w: seq<Byte>)
    requires Scannable(text) && HasAt(text, i, w) && i + |w| < |text|
    requires forall k :: 0 <= k < |w| ==> InString(w[k]) && w[k] != BACKSLASH
    ensures var r := Body(text, i + |w|); Body(text, i) == Scan(w + r.str, r.at, r.errors)
    decreases |w|
  {
    hide Body, Scannable, ReadPiece, HasAt;
    var r := Body(text, i + |w|);
    if w == [] {
      assert w + r.str == r.str;
    } else {
      assert [w[0]] + w[1..] == w;
      HasAtParts(text, i, [w[0]], w[1..]);
      RawPiece(text, i, w[0]);
      PieceThenBody(text, i, w[0], i + 1);
      RawReadsBack(text, i + 1, w[1..]);
      assert [w[0]] + (w[1..] + r.str) == w + r.str;
    }
  }

  lemma RawPiece(text: seq<Byte>, i: nat, c: Byte)
    requires Scannable(text) && HasAt(text, i, [c]) && i + 1 < |text| && InString(c) && c != BACKSLASH
    ensures text[i] == c && ReadPiece(text, i) == Piece(c, i + 1, [])
  {
    assert text[i..i + 1][0] == text[i];
  }

  /** Scanning a written string, up to the closing quote. */
  lemma {:induction false} BodyReadsBack(text: seq<Byte>, i: nat, s: seq<Byte>, extra: Byte)
    requires Scannable(text) && HasAt(text, i, Escaped(s, extra) + [QUOTE])
    ensures Body(text, i) == Scan(AllReadBack(s, extra), i + |Escaped(s, extra)|, [])
    decreases |s|
  {
    hide EscapeChar, ReadBack, Scannable, Body;
    if s == [] {
      assert Escaped(s, extra) + [QUOTE] == [QUOTE];
      NothingLeft(text, i);
    } else {
      var w := EscapeChar(s[0], extra);
      var rest := Escaped(s[1..], extra) + [QUOTE];
      assert Escaped(s, extra) + [QUOTE] == w + rest;
      HasBoth(text, i, w, rest);
      CharReadsBack(text, i, s[0], extra);
      BodyReadsBack(text, i + |w|, s[1..], extra);
    }
  }

  lemma NothingLeft(text: seq<Byte>, i: nat)
    requires Scannable(text) && HasAt(text, i, [QUOTE])
    ensures Body(text, i) == Scan([], i, [])
  {
    assert text[i] == text[i..i + 1][0] == QUOTE;
  }

  lemma HasBoth(text: seq<Byte>, i: nat, v: seq<Byte>, w: seq<Byte>)
    requires HasAt(text, i, v + w)
    ensures HasAt(text, i, v) && HasAt(text, i + |v|, w)
  {
    var all := v + w;
    assert text[i..i + |v|] == text[i..i + |all|][..|v|] == v;
    assert text[i + |v|..i + |v| + |w|] == text[i..i + |all|][|v|..] == w;
  }

  lemma {:induction false} ReadBackLength(s: seq<Byte>, extra: Byte)
    ensures |AllReadBack(s, extra)| >= |s|
    ensures (extra as int < 128 || extra !in s) ==> AllReadBack(s, extra) == s
    ensures extra as int >= 128 && extra in s ==> |AllReadBack(s, extra)| > |s|
  {
    if s != [] {
      ReadBackLength(s[1..], extra);
      assert s == [s[0]] + s[1..];
    }
  }

  /**
    * Scanning a quoted, written string gives back the string, with no error and up to the closing quote, exactly
    when the
    * extra character to escape is an ASCII one, or does not occur in the string.
    */
  lemma EscapeRoundTrip(text: seq<Byte>, i: nat, s: seq<Byte>, extra: Byte)
    requires Scannable(text) && HasAt(text, i, [QUOTE] + Escaped(s, extra) + [QUOTE]) &&
      i + |Escaped(s, extra)| + 2 < |text|
    ensures Closing(text, Body(text, i + 1)) == Scan(s, i + |Escaped(s, extra)| + 2, []) <==>
      extra as int < 128 || extra !in s
  {
    hide Body, Escaped, AllReadBack, Scannable;
    var all := [QUOTE] + Escaped(s, extra) + [QUOTE];
    assert text[i + 1..i + |all|] == text[i..i + |all|][1..] == Escaped(s, extra) + [QUOTE];
    BodyReadsBack(text, i + 1, s, extra);
    assert text[i + |all| - 1] == text[i..i + |all|][|all| - 1] == QUOTE;
    ReadBackLength(s, extra);
  }

  /** A written string has no NUL. */
  lemma {:induction false} EscapedScannable(s: seq<Byte>, extra: Byte)
    ensures NUL !in Escaped(s, extra)
  {
    if s != [] {
      EscapedScannable(s[1..], extra);
      EscapeCharNotNul(s[0], extra);
    }
  }

  lemma EscapeCharNotNul(c: Byte, extra: Byte)
    ensures NUL !in EscapeChar(c, extra)
  {
    if EscapeLetter(c).None? && (IsCntrl(c) || c == extra) {
      if c as int < 128 {
        TwoDigits(c);
        BiasedHex(c as int / 16);
      } else {
        EightDigits(c);
        BiasedHex(c as int / 16);
      }
      BiasedHex(c as int % 16);
    }
  }

  /** A string as a literal that is a text of its own. */
  function Literal(s: seq<Byte>, extra: Byte): (text: seq<Byte>)
    ensures Scannable(text) && |text| == |Escaped(s, extra)| + 3
  {
    EscapedScannable(s, extra);
    QuotedScannable(Escaped(s, extra));
    [QUOTE] + Escaped(s, extra) + [QUOTE] + [NUL]
  }

  /** The round trip of a literal: for every string and every extra character. */
  lemma LiteralRoundTrip(s: seq<Byte>, extra: Byte)
    ensures Closing(Literal(s, extra), Body(Literal(s, extra), 1)) == Scan(s, |Escaped(s, extra)| + 2, [])
      <==> extra as int < 128 || extra !in s
  {
    hide Escaped, Body, Closing, Scannable;
    var w := [QUOTE] + Escaped(s, extra) + [QUOTE];
    assert Literal(s, extra)[0..|w|] == w;
    EscapeRoundTrip(Literal(s, extra), 0, s, extra);
  }

  lemma QuotedScannable(w: seq<Byte>)
    requires NUL !in w
    ensures Scannable([QUOTE] + w + [QUOTE] + [NUL])
  {
    var text := [QUOTE] + w + [QUOTE] + [NUL];
    assert text[|text| - 2] == QUOTE && text[|text| - 1] == NUL;
    assert forall i :: 0 <= i < |w| ==> text[i + 1] == w[i] != NUL;
  }
}
