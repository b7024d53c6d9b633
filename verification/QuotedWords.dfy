/** The arguments of a line, from the ways of writing one: a bare part, then nothing,
    or a part in single or double quotes; blanks between. */
module QuotedWords {
  import opened Common
  import opened QuotedArgs

  // ----- ways of writing an argument -----

  /** A byte between double quotes: itself, after a backslash, or as \xHH. */
  datatype Form = Raw(c: char) | Escaped(c: char) | Hex(h: Nibble, l: Nibble, upperH: bool, upperL: bool)

  type Nibble = n: nat | n < 16

  datatype Tail = NoQuote | Single(x: string) | Double(forms: seq<Form>)

  datatype Word = Word(bare: string, tail: Tail)

  const LOWER_HEX: string := "0123456789abcdef"
  const UPPER_HEX: string := "0123456789ABCDEF"

  predicate FormFits(f: Form) {
    match f
    case Raw(c) => c !in "\\\"\0"
    case Escaped(c) => c != '\0'
    case Hex(_, _, _, _) => true
  }

  predicate HexDigit(c: char) {
    c in LOWER_HEX || c in UPPER_HEX
  }

  predicate TwoHexDigits(s: string) {
    |s| >= 2 && HexDigit(s[0]) && HexDigit(s[1])
  }

  function Written(f: Form): string {
    match f
    case Raw(c) => [c]
    case Escaped(c) => ['\\', c]
    case Hex(h, l, upperH, upperL) =>
      "\\x" + [if upperH then UPPER_HEX[h] else LOWER_HEX[h]] + [if upperL then UPPER_HEX[l] else LOWER_HEX[l]]
  }

  /** The byte that a form stands for: the usual control characters for the letters
      n, r, t, b and a, and every other escaped character for itself. */
  function Meant(f: Form): char {
    match f
    case Raw(c) => c
    case Escaped('n') => 10 as char
    case Escaped('r') => 13 as char
    case Escaped('t') => 9 as char
    case Escaped('b') => 8 as char
    case Escaped('a') => 7 as char
    case Escaped(c) => c
    case Hex(h, l, _, _) => (16 * h + l) as char
  }

  function DoubleText(forms: seq<Form>): string {
    if forms == [] then "" else Written(forms[0]) + DoubleText(forms[1..])
  }

  /** An escaped x must not be taken for a hexadecimal form. */
  predicate FormsFit(forms: seq<Form>) {
    forms != [] ==>
      && FormFits(forms[0]) && FormsFit(forms[1..])
      && (forms[0] == Escaped('x') ==> !TwoHexDigits(DoubleText(forms[1..])))
  }

  function DoubleValue(forms: seq<Form>): (r: string)
    ensures |r| == |forms|
  {
    seq(|forms|, i requires 0 <= i < |forms| => Meant(forms[i]))
  }

  /** Between single quotes only the quote itself is written with a backslash. */
  function SingleText(x: string): string {
    if x == "" then "" else SingleChar(x[0]) + SingleText(x[1..])
  }

  function SingleChar(c: char): string {
    if c == '\'' then "\\'" else [c]
  }

  /** Characters that end no bare part: not a quote, NUL, space, line feed, carriage
      return or tab.  Vertical tab and form feed end none, although they are blanks. */
  predicate BareFits(bare: string) {
    && (forall i :: 0 <= i < |bare| ==> bare[i] !in "\"'\0 \n\r\t")
    && (bare != "" ==> !Blank(bare[0]))
  }

  predicate Blank(c: char) {
    c in " \n\r\t" || c == 11 as char || c == 12 as char
  }

  predicate SingleFits(x: string) {
    '\0' !in x && (x != "" ==> x[|x| - 1] != '\\')
  }

  predicate WordFits(w: Word) {
    && BareFits(w.bare)
    && match w.tail
       case NoQuote => w.bare != ""
       case Single(x) => SingleFits(x)
       case Double(forms) => FormsFit(forms)
  }

  function WordText(w: Word): string
    requires WordFits(w)
  {
    w.bare +
    match w.tail
    case NoQuote => ""
    case Single(x) => "'" + SingleText(x) + "'"
    case Double(forms) => "\"" + DoubleText(forms) + "\""
  }

  function WordValue(w: Word): string
    requires WordFits(w)
  {
    w.bare +
    match w.tail
    case NoQuote => ""
    case Single(x) => x
    case Double(forms) => DoubleValue(forms)
  }

  predicate Blanks(gap: string) {
    forall i :: 0 <= i < |gap| ==> Blank(gap[i])
  }

  /** What may follow a word: the end, or a blank; after a bare word not a vertical tab
      or form feed. */
  predicate Follows(w: Word, rest: string) {
    rest == "" || (Blank(rest[0]) && (w.tail.NoQuote? ==> rest[0] in " \n\r\t"))
  }

  predicate LineFits(words: seq<Word>, gaps: seq<string>) {
    && |gaps| == |words|
    && forall i :: 0 <= i < |words| ==>
      && WordFits(words[i]) && Blanks(gaps[i]) && Follows(words[i], gaps[i])
      && (i < |words| - 1 ==> gaps[i] != "")
  }

  function LineText(words: seq<Word>, gaps: seq<string>): string
    requires LineFits(words, gaps)
  {
    if words == [] then "" else WordText(words[0]) + gaps[0] + LineText(words[1..], gaps[1..])
  }

  function Values(words: seq<Word>): (r: seq<string>)
    requires forall i :: 0 <= i < |words| ==> WordFits(words[i])
    ensures |r| == |words|
  {
    seq(|words|, i requires 0 <= i < |words| => WordValue(words[i]))
  }

  /** How a byte is printed: backslash and double quote escaped, five control characters
      as letters, other printable characters as themselves, the rest in lower-case
      hexadecimal. */
  lemma ReprForms(c: Byte)
    ensures ReprByte(c) == Written(
      if c in "\\\"" then Escaped(c)
      else if c as int == 10 then Escaped('n')
      else if c as int == 13 then Escaped('r')
      else if c as int == 9 then Escaped('t')
      else if c as int == 7 then Escaped('a')
      else if c as int == 8 then Escaped('b')
      else if 32 <= c as int <= 126 then Raw(c)
      else Hex(c as int / 16, c as int % 16, false, false))
  {
    hide HexChar;
    HexCharMeans(c as int / 16);
    HexCharMeans(c as int % 16);
  }

  lemma HexCharMeans(n: nat)
    requires n < 16
    ensures HexChar(n) == LOWER_HEX[n]
  {
    assert n < 10 ==> LOWER_HEX[n] == '0' + n as char;
    assert n >= 10 ==> LOWER_HEX[n] == 'a' + (n - 10) as char;
  }

  // ----- reading them -----

  lemma BlankIsSpace(c: char)
    ensures Blank(c) <==> IsSpace(c)
  {
  }

  lemma AtRest(line: string, p: nat, rest: string, i: nat)
    requires p <= |line| && line[p..] == rest && i < |rest|
    ensures p + i < |line| && At(line, p + i) == line[p + i] == rest[i]
  {
    assert rest[i] == line[p..][i];
  }

  lemma Onward(line: string, p: nat, a: string, b: string)
    requires p <= |line| && line[p..] == a + b
    ensures p + |a| <= |line| && line[p + |a|..] == b && p + |a| == |line| - |b|
  {
    assert line[p + |a|..] == line[p..][|a|..];
  }

  lemma {:induction false} BareRead(line: string, p: nat, bare: string, rest: string, current: string)
    requires p <= |line| && line[p..] == bare + rest
    requires forall i :: 0 <= i < |bare| ==> bare[i] !in "\"'\0 \n\r\t"
    ensures p + |bare| <= |line|
    ensures Token(line, p, Plain, current) == Token(line, p + |bare|, Plain, current + bare)
    decreases |bare|
  {
    hide Token;
    if bare == "" {
      assert current + bare == current;
    } else {
      AtRest(line, p, bare + rest, 0);
      assert bare + rest == [bare[0]] + (bare[1..] + rest);
      Onward(line, p, [bare[0]], bare[1..] + rest);
      PlainStep(line, p, current);
      BareRead(line, p + 1, bare[1..], rest, current + [bare[0]]);
      assert current + [bare[0]] + bare[1..] == current + bare;
    }
  }

  lemma PlainStep(line: string, p: nat, current: string)
    requires p < |line| && line[p] !in "\"'\0 \n\r\t"
    ensures Token(line, p, Plain, current) == Token(line, p + 1, Plain, current + [line[p]])
  {
  }

  /** One form between double quotes. */
  lemma FormRead(line: string, p: nat, f: Form, rest: string, current: string)
    requires p <= |line| && FormFits(f) && line[p..] == Written(f) + rest
    requires f == Escaped('x') ==> !TwoHexDigits(rest)
    ensures p + |Written(f)| <= |line|
    ensures Token(line, p, Quoted, current) == Token(line, p + |Written(f)|, Quoted, current + [Meant(f)])
  {
    hide Token;
    match f
    case Raw(c) =>
      AtRest(line, p, [c] + rest, 0);
      RawStep(line, p, current);
    case Escaped(c) =>
      AtRest(line, p, ['\\', c] + rest, 0);
      AtRest(line, p, ['\\', c] + rest, 1);
      Onward(line, p, ['\\', c], rest);
      EscapedStep(line, p, current);
    case Hex(h, l, upperH, upperL) =>
      HexFormRead(line, p, f, rest, current);
  }

  lemma HexFormRead(line: string, p: nat, f: Form, rest: string, current: string)
    requires p <= |line| && f.Hex? && line[p..] == Written(f) + rest
    ensures p + 4 <= |line| && |Written(f)| == 4
    ensures Token(line, p, Quoted, current) == Token(line, p + 4, Quoted, current + [Meant(f)])
  {
    hide Token;
    var s := Written(f) + rest;
    AtRest(line, p, s, 0);
    AtRest(line, p, s, 1);
    AtRest(line, p, s, 2);
    AtRest(line, p, s, 3);
    HexStep(line, p, f.h, f.l, current);
  }

  lemma RawStep(line: string, p: nat, current: string)
    requires p < |line| && line[p] !in "\\\"\0"
    ensures Token(line, p, Quoted, current) == Token(line, p + 1, Quoted, current + [line[p]])
  {
  }

  lemma EscapedStep(line: string, p: nat, current: string)
    requires p + 1 < |line| && line[p] == '\\' && FormFits(Escaped(line[p + 1]))
    requires line[p + 1] == 'x' ==> !TwoHexDigits(line[p + 2..])
    ensures Token(line, p, Quoted, current) == Token(line, p + 2, Quoted, current + [Meant(Escaped(line[p + 1]))])
  {
    hide HexDigit;
    if line[p + 1] == 'x' && |line| - p > 3 {
      assert line[p + 2..][0] == line[p + 2] && line[p + 2..][1] == line[p + 3];
      HexDigitMeans(line[p + 2]);
      HexDigitMeans(line[p + 3]);
    }
  }

  lemma QuoteIsNotHex()
    ensures !HexDigit('\"') && !HexDigit('\\')
  {
  }

  lemma HexDigitMeans(c: char)
    ensures IsHexDigit(c) <==> HexDigit(c)
  {
    if '0' <= c <= '9' {
      assert LOWER_HEX[(c - '0') as nat] == c;
    } else if 'a' <= c <= 'f' {
      assert LOWER_HEX[10 + (c - 'a') as nat] == c;
    } else if 'A' <= c <= 'F' {
      assert UPPER_HEX[10 + (c - 'A') as nat] == c;
    }
  }

  lemma HexStep(line: string, p: nat, h: nat, l: nat, current: string)
    requires p + 3 < |line| && line[p] == '\\' && line[p + 1] == 'x' && h < 16 && l < 16
    requires line[p + 2] == LOWER_HEX[h] || line[p + 2] == UPPER_HEX[h]
    requires line[p + 3] == LOWER_HEX[l] || line[p + 3] == UPPER_HEX[l]
    ensures Token(line, p, Quoted, current) == Token(line, p + 4, Quoted, current + [(16 * h + l) as char])
  {
    hide HexDigitToInt, IsHexDigit;
    HexDigitRead(h);
    HexDigitRead(l);
  }

  /** The digit h, in either case, is read as the number h. */
  lemma HexDigitRead(h: nat)
    requires h < 16
    ensures IsHexDigit(LOWER_HEX[h]) && HexDigitToInt(LOWER_HEX[h]) == h
    ensures IsHexDigit(UPPER_HEX[h]) && HexDigitToInt(UPPER_HEX[h]) == h
  {
    if h < 10 {
      assert LOWER_HEX[h] == UPPER_HEX[h] == '0' + h as char;
    } else {
      assert LOWER_HEX[h] == 'a' + (h - 10) as char;
      assert UPPER_HEX[h] == 'A' + (h - 10) as char;
    }
  }

  lemma {:induction false} DoubleRead(line: string, p: nat, forms: seq<Form>, rest: string, current: string)
    requires p <= |line| && FormsFit(forms) && line[p..] == DoubleText(forms) + rest
    requires rest != "" ==> !HexDigit(rest[0])
    ensures p + |DoubleText(forms)| <= |line|
    ensures Token(line, p, Quoted, current) ==
      Token(line, p + |DoubleText(forms)|, Quoted, current + DoubleValue(forms))
    decreases |forms|
  {
    hide Token, FormFits, Written, Meant, HexDigit, DoubleText, DoubleValue, TwoHexDigits;
    DoubleSplits(forms, rest, current);
    if forms != [] {
      var f, others := forms[0], forms[1..];
      var after := DoubleText(others) + rest;
      if f == Escaped('x') {
        NotTwoHex(DoubleText(others), rest);
      }
      FormRead(line, p, f, after, current);
      Onward(line, p, Written(f), after);
      DoubleRead(line, p + |Written(f)|, others, rest, current + [Meant(f)]);
    }
  }

  lemma DoubleSplits(forms: seq<Form>, rest: string, current: string)
    ensures forms == [] ==> DoubleText(forms) == "" && current + DoubleValue(forms) == current
    ensures forms != [] ==>
      var f, others := forms[0], forms[1..];
      && DoubleText(forms) + rest == Written(f) + (DoubleText(others) + rest)
      && |DoubleText(forms)| == |Written(f)| + |DoubleText(others)|
      && current + [Meant(f)] + DoubleValue(others) == current + DoubleValue(forms)
  {
    hide Written, Meant;
  }

  lemma NotTwoHex(s: string, rest: string)
    requires !TwoHexDigits(s) && (rest != "" ==> !HexDigit(rest[0]))
    ensures !TwoHexDigits(s + rest)
  {
    hide HexDigit;
  }

  lemma {:induction false} SingleRead(line: string, p: nat, x: string, rest: string, current: string)
    requires p <= |line| && '\0' !in x && line[p..] == SingleText(x) + rest
    requires x != "" && x[|x| - 1] == '\\' && rest != "" ==> rest[0] != '\''
    ensures p + |SingleText(x)| <= |line|
    ensures Token(line, p, SingleQuoted, current) ==
      Token(line, p + |SingleText(x)|, SingleQuoted, current + x)
    decreases |x|
  {
    hide Token, SingleText, SingleChar;
    SingleTextStart(x);
    if x == "" {
      assert current + x == current;
    } else {
      var first, after := SingleChar(x[0]), SingleText(x[1..]) + rest;
      SingleSplits(x, rest, current);
      Onward(line, p, first, after);
      SingleTextStart(x[1..]);
      SingleStep(line, p, x[0], after, current);
      SingleRead(line, p + |first|, x[1..], rest, current + [x[0]]);
    }
  }

  lemma SingleSplits(x: string, rest: string, current: string)
    requires x != ""
    ensures SingleText(x) + rest == SingleChar(x[0]) + (SingleText(x[1..]) + rest)
    ensures |SingleText(x)| == |SingleChar(x[0])| + |SingleText(x[1..])|
    ensures current + [x[0]] + x[1..] == current + x
  {
    hide SingleChar, SingleText;
    SingleTextStarts(x);
    Associates(SingleChar(x[0]), SingleText(x[1..]), rest);
    Associates(current, [x[0]], x[1..]);
    assert [x[0]] + x[1..] == x;
  }

  lemma SingleTextStarts(x: string)
    requires x != ""
    ensures SingleText(x) == SingleChar(x[0]) + SingleText(x[1..])
  {
    hide SingleChar;
  }

  lemma Associates(a: string, b: string, c: string)
    ensures a + b + c == a + (b + c)
  {
  }

  lemma SingleTextStart(x: string)
    ensures x == "" ==> SingleText(x) == ""
    ensures x != "" ==> SingleText(x) != "" && SingleText(x)[0] != '\''
  {
  }

  lemma SingleStep(line: string, p: nat, c: char, after: string, current: string)
    requires p <= |line| && c != '\0'
    requires line[p..] == SingleChar(c) + after
    requires c == '\\' && after != "" ==> after[0] != '\''
    ensures var n := |SingleChar(c)|;
      p + n <= |line| && Token(line, p, SingleQuoted, current) == Token(line, p + n, SingleQuoted, current + [c])
  {
    var s := SingleChar(c) + after;
    AtRest(line, p, s, 0);
    if |s| > 1 {
      AtRest(line, p, s, 1);
    }
  }

  // ----- the end of a word -----

  lemma PlainEnd(line: string, p: nat, rest: string, current: string)
    requires p <= |line| && line[p..] == rest && (rest == "" || rest[0] in " \n\r\t")
    ensures Token(line, p, Plain, current) == Some((current, if rest == "" then p else p + 1))
  {
    if rest != "" {
      AtRest(line, p, rest, 0);
    }
  }

  /** The closing quote of a mode, followed by rest. */
  lemma QuoteEnd(line: string, p: nat, mode: Mode, rest: string, current: string)
    requires p <= |line| && mode != Plain
    requires line[p..] == [if mode == Quoted then '\"' else '\''] + rest
    ensures p < |line| && line[p + 1..] == rest
    ensures rest == "" || Blank(rest[0]) ==> Token(line, p, mode, current) == Some((current, p + 1))
    ensures rest != "" && !Blank(rest[0]) && rest[0] != '\0' ==> Token(line, p, mode, current) == None
  {
    var s := [if mode == Quoted then '\"' else '\''] + rest;
    AtRest(line, p, s, 0);
    Onward(line, p, s[..1], rest);
    if rest != "" {
      AtRest(line, p, s, 1);
      BlankIsSpace(rest[0]);
    }
  }

  /** The opening quote after a bare part. */
  lemma QuoteStart(line: string, p: nat, mode: Mode, rest: string, current: string)
    requires p <= |line| && mode != Plain
    requires line[p..] == [if mode == Quoted then '\"' else '\''] + rest
    ensures p < |line| && line[p + 1..] == rest
    ensures Token(line, p, Plain, current) == Token(line, p + 1, mode, current)
  {
    var s := [if mode == Quoted then '\"' else '\''] + rest;
    AtRest(line, p, s, 0);
    Onward(line, p, s[..1], rest);
  }

  function QuoteOf(mode: Mode): char {
    if mode == Quoted then '\"' else '\''
  }

  /** From the start of a word to past its opening quote. */
  lemma OpenedAt(line: string, p: nat, bare: string, mode: Mode, rest: string)
    requires p <= |line| && mode != Plain && BareFits(bare) && line[p..] == bare + ([QuoteOf(mode)] + rest)
    ensures p + |bare| + 1 <= |line| && line[p + |bare| + 1..] == rest
    ensures Token(line, p, Plain, "") == Token(line, p + |bare| + 1, mode, bare)
  {
    hide Token;
    BareRead(line, p, bare, [QuoteOf(mode)] + rest, "");
    Onward(line, p, bare, [QuoteOf(mode)] + rest);
    assert "" + bare == bare;
    QuoteStart(line, p + |bare|, mode, rest, bare);
  }

  lemma QuotedParts(w: Word, rest: string)
    requires WordFits(w) && !w.tail.NoQuote?
    ensures
      var quote := [QuoteOf(if w.tail.Double? then Quoted else SingleQuoted)];
      var text := if w.tail.Double? then DoubleText(w.tail.forms) else SingleText(w.tail.x);
      && WordText(w) + rest == w.bare + (quote + (text + (quote + rest)))
      && |WordText(w)| == |w.bare| + |text| + 2
      && WordValue(w) == w.bare + if w.tail.Double? then DoubleValue(w.tail.forms) else w.tail.x
  {
    hide SingleText, DoubleText, DoubleValue, BareFits, FormsFit;
  }

  /** From the start of a word to the closing quote of its quoted part. */
  lemma ToClosingQuote(line: string, p: nat, w: Word, rest: string)
    requires p <= |line| && WordFits(w) && !w.tail.NoQuote? && line[p..] == WordText(w) + rest
    ensures var q, mode := p + |WordText(w)| - 1, if w.tail.Double? then Quoted else SingleQuoted;
      && p <= q < |line| && line[q..] == [QuoteOf(mode)] + rest
      && Token(line, p, Plain, "") == Token(line, q, mode, WordValue(w))
  {
    hide Token, SingleText, DoubleText, DoubleValue, HexDigit, FormsFit, BareFits, WordText, WordValue;
    QuoteIsNotHex();
    var mode := if w.tail.Double? then Quoted else SingleQuoted;
    var quote := [QuoteOf(mode)];
    var text := if w.tail.Double? then DoubleText(w.tail.forms) else SingleText(w.tail.x);
    QuotedParts(w, rest);
    OpenedAt(line, p, w.bare, mode, text + (quote + rest));
    var p1 := p + |w.bare|;
    Onward(line, p1 + 1, text, quote + rest);
    if w.tail.Double? {
      DoubleRead(line, p1 + 1, w.tail.forms, quote + rest, w.bare);
    } else {
      SingleRead(line, p1 + 1, w.tail.x, quote + rest, w.bare);
    }
  }

  lemma WordStart(w: Word)
    requires WordFits(w)
    ensures WordText(w) != "" && WordText(w)[0] != '\0' && !Blank(WordText(w)[0])
  {
    hide SingleText, DoubleText;
  }

  /** One word and what follows it. */
  lemma WordRead(line: string, p: nat, w: Word, rest: string, vector: seq<string>)
    requires p <= |line| && WordFits(w) && Follows(w, rest) && line[p..] == WordText(w) + rest
    ensures |rest| <= |line| && line[|line| - |rest|..] == rest
    ensures ArgsFrom(line, p, vector) == ArgsFrom(line, |line| - |rest|, vector + [WordValue(w)])
  {
    hide Token, WordText, WordValue, WordFits, HexDigit, Blank, ArgsFrom;
    var end := p + |WordText(w)|;
    Onward(line, p, WordText(w), rest);
    WordStart(w);
    AtRest(line, p, WordText(w) + rest, 0);
    BlankIsSpace(WordText(w)[0]);
    if w.tail.NoQuote? {
      BareWordRead(line, p, w, rest);
      TokenAppended(line, p, WordValue(w), end + if rest == "" then 0 else 1, vector);
      if rest != "" {
        AtRest(line, end, rest, 0);
        BlankIsNotNul(rest[0]);
        BlankSkipped(line, end, vector + [WordValue(w)]);
      }
    } else {
      QuotedWordRead(line, p, w, rest);
      TokenAppended(line, p, WordValue(w), end, vector);
    }
  }

  lemma TokenAppended(line: string, p: nat, token: string, next: nat, vector: seq<string>)
    requires p <= |line| && next <= |line| && At(line, p) != '\0' && !IsSpace(At(line, p))
    requires Token(line, p, Plain, "") == Some((token, next))
    ensures ArgsFrom(line, p, vector) == ArgsFrom(line, next, vector + [token])
  {
    hide Token;
  }

  lemma QuotedWordRead(line: string, p: nat, w: Word, rest: string)
    requires p <= |line| && WordFits(w) && !w.tail.NoQuote? && Follows(w, rest) && line[p..] == WordText(w) + rest
    ensures p + |WordText(w)| <= |line|
    ensures Token(line, p, Plain, "") == Some((WordValue(w), p + |WordText(w)|))
  {
    hide Token, WordText, WordValue, WordFits, Blank;
    ToClosingQuote(line, p, w, rest);
    QuoteEnd(line, p + |WordText(w)| - 1, if w.tail.Double? then Quoted else SingleQuoted, rest, WordValue(w));
  }

  lemma BareWordRead(line: string, p: nat, w: Word, rest: string)
    requires p <= |line| && WordFits(w) && w.tail.NoQuote? && Follows(w, rest) && line[p..] == WordText(w) + rest
    ensures p + |WordText(w)| <= |line|
    ensures Token(line, p, Plain, "") ==
      Some((WordValue(w), p + |WordText(w)| + if rest == "" then 0 else 1))
  {
    hide Token;
    assert WordText(w) == w.bare && WordValue(w) == w.bare;
    BareRead(line, p, w.bare, rest, "");
    assert "" + w.bare == w.bare;
    Onward(line, p, w.bare, rest);
    PlainEnd(line, p + |w.bare|, rest, w.bare);
  }

  lemma BlankSkipped(line: string, p: nat, vector: seq<string>)
    requires p < |line| && line[p] != '\0' && IsSpace(line[p])
    ensures ArgsFrom(line, p, vector) == ArgsFrom(line, p + 1, vector)
  {
    hide Token;
  }

  lemma {:induction false} GapSkipped(line: string, p: nat, gap: string, rest: string, vector: seq<string>)
    requires p <= |line| && Blanks(gap) && line[p..] == gap + rest
    ensures p + |gap| <= |line| && line[p + |gap|..] == rest
    ensures ArgsFrom(line, p, vector) == ArgsFrom(line, p + |gap|, vector)
    decreases |gap|
  {
    hide ArgsFrom, Blank;
    Onward(line, p, gap, rest);
    if gap != "" {
      AtRest(line, p, gap + rest, 0);
      assert gap + rest == [gap[0]] + (gap[1..] + rest);
      Onward(line, p, [gap[0]], gap[1..] + rest);
      assert Blank(gap[0]);
      BlankIsNotNul(gap[0]);
      BlankSkipped(line, p, vector);
      GapSkipped(line, p + 1, gap[1..], rest, vector);
    }
  }

  lemma BlankIsNotNul(c: char)
    requires Blank(c)
    ensures IsSpace(c) && c != '\0'
  {
  }

  // ----- whole lines -----

  /** Reading up to the end of the words, whatever comes after the last gap. */
  lemma {:induction false} WordsRead(line: string, p: nat, words: seq<Word>, gaps: seq<string>, rest: string,
                                     vector: seq<string>)
    requires p <= |line| && LineFits(words, gaps) && line[p..] == LineText(words, gaps) + rest
    requires rest != "" && words != [] ==> gaps[|gaps| - 1] != ""
    ensures |rest| <= |line| && line[|line| - |rest|..] == rest
    ensures ArgsFrom(line, p, vector) == ArgsFrom(line, |line| - |rest|, vector + Values(words))
    decreases |words|
  {
    hide ArgsFrom, WordText, WordValue, WordFits, Blanks, Follows;
    if words == [] {
      assert line[p..] == rest;
      assert vector + Values(words) == vector;
    } else {
      var w, gap := words[0], gaps[0];
      var after := LineText(words[1..], gaps[1..]) + rest;
      LineSplits(words, gaps, rest);
      assert Follows(w, gap + after) by { FollowsMore(words, gaps, rest); }
      WordRead(line, p, w, gap + after, vector);
      var p1 := |line| - |gap + after|;
      GapSkipped(line, p1, gap, after, vector + [WordValue(w)]);
      WordsRead(line, p1 + |gap|, words[1..], gaps[1..], rest, vector + [WordValue(w)]);
      ValuesSplit(words, vector);
    }
  }

  lemma LineSplits(words: seq<Word>, gaps: seq<string>, rest: string)
    requires LineFits(words, gaps) && words != []
    ensures LineFits(words[1..], gaps[1..])
    ensures LineText(words, gaps) + rest == WordText(words[0]) + (gaps[0] + (LineText(words[1..], gaps[1..]) + rest))
  {
    hide WordText, WordFits, Blanks, Follows;
  }

  lemma ValuesSplit(words: seq<Word>, vector: seq<string>)
    requires words != [] && forall i :: 0 <= i < |words| ==> WordFits(words[i])
    ensures vector + [WordValue(words[0])] + Values(words[1..]) == vector + Values(words)
  {
    hide WordValue, WordFits;
  }

  lemma FollowsMore(words: seq<Word>, gaps: seq<string>, rest: string)
    requires LineFits(words, gaps) && words != []
    requires rest != "" ==> gaps[|gaps| - 1] != ""
    ensures Follows(words[0], gaps[0] + (LineText(words[1..], gaps[1..]) + rest))
  {
    hide WordText, WordFits, Blanks;
    if |words| == 1 {
      assert LineText(words[1..], gaps[1..]) == "";
    }
  }

  /** Whatever the blanks between them, the arguments of a line are what its words
      stand for. */
  lemma ArgsOfLine(lead: string, words: seq<Word>, gaps: seq<string>)
    requires Blanks(lead) && LineFits(words, gaps)
    ensures Args(lead + LineText(words, gaps)) == Some(Values(words))
  {
    hide ArgsFrom, LineText, Values;
    var line := lead + LineText(words, gaps);
    assert line[0..] == line && LineText(words, gaps) + "" == LineText(words, gaps);
    GapSkipped(line, 0, lead, LineText(words, gaps), []);
    WordsRead(line, |lead|, words, gaps, "", []);
    LineEnds(line, Values(words));
    assert [] + Values(words) == Values(words);
  }

  // ----- unbalanced quotes -----

  /** A word that is not closed, or closed before something that is not a blank. */
  datatype Flaw =
    | OpenDouble(bare: string, forms: seq<Form>, backslash: bool)
    | OpenSingle(bare: string, x: string)
    | Glued(w: Word, c: char, more: string)

  predicate FlawFits(f: Flaw) {
    match f
    case OpenDouble(bare, forms, _) => BareFits(bare) && FormsFit(forms)
    case OpenSingle(bare, x) => BareFits(bare) && '\0' !in x
    case Glued(w, c, _) => WordFits(w) && !w.tail.NoQuote? && !Blank(c) && c != '\0'
  }

  function FlawText(f: Flaw): string
    requires FlawFits(f)
  {
    match f
    case OpenDouble(bare, forms, backslash) => bare + "\"" + DoubleText(forms) + if backslash then "\\" else ""
    case OpenSingle(bare, x) => bare + "'" + SingleText(x)
    case Glued(w, c, more) => WordText(w) + [c] + more
  }

  lemma OpenDoubleParts(f: Flaw)
    requires f.OpenDouble? && FlawFits(f)
    ensures FlawText(f) ==
      f.bare + ([QuoteOf(Quoted)] + (DoubleText(f.forms) + if f.backslash then "\\" else ""))
  {
    hide DoubleText, BareFits, FormsFit;
  }

  lemma OpenSingleParts(f: Flaw)
    requires f.OpenSingle? && FlawFits(f)
    ensures FlawText(f) == f.bare + ([QuoteOf(SingleQuoted)] + SingleText(f.x))
  {
    hide SingleText, BareFits;
  }

  lemma OpenDoubleRefused(line: string, p: nat, f: Flaw)
    requires p <= |line| && f.OpenDouble? && FlawFits(f) && line[p..] == FlawText(f)
    ensures Token(line, p, Plain, "") == None
  {
    hide Token, DoubleText, DoubleValue, HexDigit, FormsFit, BareFits, FlawText;
    QuoteIsNotHex();
    var last := if f.backslash then "\\" else "";
    var text := DoubleText(f.forms);
    assert FlawText(f) == f.bare + ([QuoteOf(Quoted)] + (text + last)) by { OpenDoubleParts(f); }
    OpenedAt(line, p, f.bare, Quoted, text + last);
    var p1 := p + |f.bare| + 1;
    DoubleRead(line, p1, f.forms, last, f.bare);
    Onward(line, p1, text, last);
    OpenEnd(line, p1 + |text|, last, f.bare + DoubleValue(f.forms));
  }

  /** The line ends inside double quotes, perhaps after a backslash. */
  lemma OpenEnd(line: string, p: nat, last: string, current: string)
    requires p <= |line| && line[p..] == last && (last == "" || last == "\\")
    ensures Token(line, p, Quoted, current) == None
  {
    if last != "" {
      AtRest(line, p, last, 0);
      assert Token(line, p + 1, Quoted, current + ['\\']) == None;
    }
  }

  lemma OpenSingleRefused(line: string, p: nat, f: Flaw)
    requires p <= |line| && f.OpenSingle? && FlawFits(f) && line[p..] == FlawText(f)
    ensures Token(line, p, Plain, "") == None
  {
    hide Token, SingleText, BareFits, FlawText;
    var text := SingleText(f.x);
    assert FlawText(f) == f.bare + ([QuoteOf(SingleQuoted)] + text) by { OpenSingleParts(f); }
    OpenedAt(line, p, f.bare, SingleQuoted, text);
    assert text + "" == text;
    SingleRead(line, p + |f.bare| + 1, f.x, "", f.bare);
    SingleOpenEnd(line, f.bare + f.x);
  }

  lemma SingleOpenEnd(line: string, current: string)
    ensures Token(line, |line|, SingleQuoted, current) == None
  {
  }

  lemma GluedRefused(line: string, p: nat, f: Flaw)
    requires p <= |line| && f.Glued? && FlawFits(f) && line[p..] == FlawText(f)
    ensures Token(line, p, Plain, "") == None
  {
    hide Token, WordText, WordValue, WordFits;
    var rest := [f.c] + f.more;
    assert FlawText(f) == WordText(f.w) + rest;
    ToClosingQuote(line, p, f.w, rest);
    QuoteEnd(line, p + |WordText(f.w)| - 1, if f.w.tail.Double? then Quoted else SingleQuoted, rest,
             WordValue(f.w));
  }

  lemma FlawStart(f: Flaw)
    requires FlawFits(f)
    ensures FlawText(f) != "" && FlawText(f)[0] != '\0' && !IsSpace(FlawText(f)[0])
  {
    hide SingleText, DoubleText, WordText, WordFits;
    if f.Glued? {
      WordStart(f.w);
      BlankIsSpace(WordText(f.w)[0]);
    } else if f.bare != "" {
      BlankIsSpace(f.bare[0]);
      assert FlawText(f)[0] == f.bare[0];
    }
  }

  lemma TokenRefused(line: string, p: nat, f: Flaw, vector: seq<string>)
    requires p <= |line| && FlawFits(f) && line[p..] == FlawText(f)
    ensures ArgsFrom(line, p, vector) == None
  {
    hide Token, FlawText, FlawFits;
    FlawStart(f);
    AtRest(line, p, FlawText(f), 0);
    match f
    case OpenDouble(_, _, _) => OpenDoubleRefused(line, p, f);
    case OpenSingle(_, _) => OpenSingleRefused(line, p, f);
    case Glued(_, _, _) => GluedRefused(line, p, f);
  }

  /** A quote that is not closed, or closed before something that is not a blank, makes
      the whole line unbalanced, whatever words come before it. */
  lemma FlawRefused(lead: string, words: seq<Word>, gaps: seq<string>, f: Flaw)
    requires Blanks(lead) && LineFits(words, gaps) && FlawFits(f)
    requires words != [] ==> gaps[|gaps| - 1] != ""
    ensures Args(lead + LineText(words, gaps) + FlawText(f)) == None
  {
    hide ArgsFrom, LineText, Values, FlawText, FlawFits;
    var text := LineText(words, gaps) + FlawText(f);
    var line := lead + LineText(words, gaps) + FlawText(f);
    assert line[0..] == lead + text;
    GapSkipped(line, 0, lead, text, []);
    WordsRead(line, |lead|, words, gaps, FlawText(f), []);
    TokenRefused(line, |line| - |FlawText(f)|, f, [] + Values(words));
  }
}
