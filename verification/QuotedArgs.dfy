/** The quoted-argument printer and parser of the string library. */
module QuotedArgs {
  import opened Common

  /** A byte, as a character code below 256. */
  type Byte = c: char | c < 256 as char witness 'a'

  const BELL: char := 7 as char
  const BACKSPACE: char := 8 as char

  /** isprint in the C locale. */
  predicate IsPrint(c: char) {
    ' ' <= c <= '~'
  }

  /** isspace in the C locale. */
  predicate IsSpace(c: char) {
    c == ' ' || '\t' <= c <= '\r'
  }

  predicate IsHexDigit(c: char) {
    '0' <= c <= '9' || 'a' <= c <= 'f' || 'A' <= c <= 'F'
  }

  function HexDigitToInt(c: char): (n: nat)
    ensures n < 16
  {
    if '0' <= c <= '9' then (c - '0') as nat
    else if 'a' <= c <= 'f' then 10 + (c - 'a') as nat
    else if 'A' <= c <= 'F' then 10 + (c - 'A') as nat
    else 0
  }

  // ----- printing -----

  function HexChar(n: nat): char
    requires n < 16
  {
    if n < 10 then '0' + n as char else 'a' + (n - 10) as char
  }

  /** How sdscatrepr writes one byte. */
  function ReprByte(c: Byte): string {
    if c == '\\' || c == '\"' then ['\\', c]
    else if c == '\n' then "\\n"
    else if c == '\r' then "\\r"
    else if c == '\t' then "\\t"
    else if c == BELL then "\\a"
    else if c == BACKSPACE then "\\b"
    else if IsPrint(c) then [c]
    else ['\\', 'x', HexChar(c as nat / 16), HexChar(c as nat % 16)]
  }

  function ReprBody(p: seq<Byte>): string {
    if p == [] then "" else ReprByte(p[0]) + ReprBody(p[1..])
  }

  function Repr(p: seq<Byte>): string {
    "\"" + ReprBody(p) + "\""
  }

  method CatRepr(s: string, p: seq<Byte>) returns (r: string)
    ensures r == s + Repr(p)
  {
    r := s + "\"";
    var i := 0;
    while i < |p|
      invariant i <= |p|
      invariant r + ReprBody(p[i..]) == s + "\"" + ReprBody(p)
    {
      ghost var rest := p[i..];
      assert rest[0] == p[i] && rest[1..] == p[i + 1..];
      ghost var before := r;
      r := r + ReprByte(p[i]);
      assert r + ReprBody(p[i + 1..]) == before + ReprBody(rest);
      i := i + 1;
    }
    assert p[i..] == [];
    assert r == s + "\"" + ReprBody(p);
    r := r + "\"";
    assert r == s + Repr(p);
  }

  // ----- parsing: the reference -----

  /** What the source reads through a pointer into the NUL-terminated line. */
  function At(line: string, p: nat): char
    requires p <= |line|
  {
    if p < |line| then line[p] else '\0'
  }

  function SkipBlanks(line: string, p: nat): (q: nat)
    requires p <= |line|
    ensures p <= q <= |line|
    decreases |line| - p
  {
    if At(line, p) != '\0' && IsSpace(At(line, p)) then SkipBlanks(line, p + 1) else p
  }

  datatype Mode = Plain | Quoted | SingleQuoted

  function Unescape(c: char): char {
    if c == 'n' then '\n'
    else if c == 'r' then '\r'
    else if c == 't' then '\t'
    else if c == 'b' then BACKSPACE
    else if c == 'a' then BELL
    else c
  }

  predicate HexEscape(line: string, p: nat)
    requires p <= |line|
  {
    At(line, p) == '\\' && At(line, p + 1) == 'x'
    && IsHexDigit(At(line, p + 2)) && IsHexDigit(At(line, p + 3))
  }

  function HexByte(line: string, p: nat): char
    requires p <= |line| && HexEscape(line, p)
  {
    (16 * HexDigitToInt(At(line, p + 2)) + HexDigitToInt(At(line, p + 3))) as char
  }

  /** Whether the quote at p ends its token: the line or a space comes next. */
  predicate ClosesToken(line: string, p: nat)
    requires p < |line|
  {
    At(line, p + 1) == '\0' || IsSpace(At(line, p + 1))
  }

  /** The token being read at p in the given mode, and where it ends; None for
      unbalanced quotes or a closing quote followed by something else. */
  function Token(line: string, p: nat, mode: Mode, current: string): (r: Option<(string, nat)>)
    requires p <= |line|
    ensures r.Some? ==> p <= r.value.1 <= |line|
    ensures r.Some? && mode == Plain && At(line, p) != '\0' ==> p < r.value.1
    decreases |line| - p
  {
    var c := At(line, p);
    match mode
    case Quoted =>
      if HexEscape(line, p) then Token(line, p + 4, Quoted, current + [HexByte(line, p)])
      else if c == '\\' && At(line, p + 1) != '\0' then
        Token(line, p + 2, Quoted, current + [Unescape(At(line, p + 1))])
      else if c == '\"' then if ClosesToken(line, p) then Some((current, p + 1)) else None
      else if c == '\0' then None
      else Token(line, p + 1, Quoted, current + [c])
    case SingleQuoted =>
      if c == '\\' && At(line, p + 1) == '\'' then Token(line, p + 2, SingleQuoted, current + ['\''])
      else if c == '\'' then if ClosesToken(line, p) then Some((current, p + 1)) else None
      else if c == '\0' then None
      else Token(line, p + 1, SingleQuoted, current + [c])
    case Plain =>
      if c == '\0' then Some((current, p))
      else if c == ' ' || c == '\n' || c == '\r' || c == '\t' then Some((current, p + 1))
      else if c == '\"' then Token(line, p + 1, Quoted, current)
      else if c == '\'' then Token(line, p + 1, SingleQuoted, current)
      else Token(line, p + 1, Plain, current + [c])
  }

  function ArgsFrom(line: string, p: nat, vector: seq<string>): Option<seq<string>>
    requires p <= |line|
    decreases |line| - p
  {
    var q := SkipBlanks(line, p);
    if At(line, q) == '\0' then Some(vector)
    else
      match Token(line, q, Plain, "")
      case None => None
      case Some((token, next)) => ArgsFrom(line, next, vector + [token])
  }

  function Args(line: string): Option<seq<string>> {
    ArgsFrom(line, 0, [])
  }

  // ----- parsing: the source's loops -----

  /** sdssplitargs: the loops stay inside the line and its terminator, end on
      every input, and compute Args. */
  method SplitArgs(line: string) returns (argv: Option<seq<string>>)
    ensures argv == Args(line)
  {
    var p := 0;
    var vector: seq<string> := [];
    while true
      invariant p <= |line|
      invariant ArgsFrom(line, p, vector) == Args(line)
      decreases |line| - p
    {
      ghost var p0 := p;
      while At(line, p) != '\0' && IsSpace(At(line, p))
        invariant p0 <= p <= |line| && SkipBlanks(line, p) == SkipBlanks(line, p0)
        decreases |line| - p
      {
        p := p + 1;
      }
      if At(line, p) == '\0' {
        return Some(vector);
      }
      var current := "";
      var inq, insq, done := false, false, false;
      ghost var token := Token(line, p, Plain, "");
      ghost var start := p;
      while !done
        invariant start <= p <= |line| && !(inq && insq)
        invariant p == start ==> !done && !inq && !insq && current == ""
        invariant if done then token == Some((current, p))
                  else token == Token(line, p, if inq then Quoted else if insq then SingleQuoted else Plain, current)
        decreases !done, |line| - p
      {
        if inq {
          if HexEscape(line, p) {
            current := current + [HexByte(line, p)];
            p := p + 3;
          } else if At(line, p) == '\\' && At(line, p + 1) != '\0' {
            p := p + 1;
            current := current + [Unescape(At(line, p))];
          } else if At(line, p) == '\"' {
            if At(line, p + 1) != '\0' && !IsSpace(At(line, p + 1)) {
              return None;
            }
            done := true;
          } else if At(line, p) == '\0' {
            return None;
          } else {
            current := current + [At(line, p)];
          }
        } else if insq {
          if At(line, p) == '\\' && At(line, p + 1) == '\'' {
            p := p + 1;
            current := current + ['\''];
          } else if At(line, p) == '\'' {
            if At(line, p + 1) != '\0' && !IsSpace(At(line, p + 1)) {
              return None;
            }
            done := true;
          } else if At(line, p) == '\0' {
            return None;
          } else {
            current := current + [At(line, p)];
          }
        } else {
          match At(line, p) {
            case ' ' => done := true;
            case '\n' => done := true;
            case '\r' => done := true;
            case '\t' => done := true;
            case '\0' => done := true;
            case '\"' => inq := true;
            case '\'' => insq := true;
            case c => current := current + [c];
          }
        }
        if At(line, p) != '\0' {
          p := p + 1;
        }
      }
      vector := vector + [current];
    }
  }

  // ----- the round trip -----

  function Join(args: seq<seq<Byte>>): string {
    if args == [] then ""
    else if |args| == 1 then Repr(args[0])
    else Repr(args[0]) + " " + Join(args[1..])
  }

  /** Reading the printed form of x inside quotes yields x. */
  lemma {:induction false} QuotedReadsBack(line: string, p: nat, x: seq<Byte>, rest: string, current: string)
    requires p <= |line| && line[p..] == ReprBody(x) + "\"" + rest
    requires rest == "" || rest[0] == ' '
    ensures Token(line, p, Quoted, current) == Some((current + x, |line| - |rest|))
    decreases |x|
  {
    hide Token, ReprByte;
    if x == [] {
      ClosingQuote(line, p, rest, current);
      assert current + x == current;
    } else {
      var c := x[0];
      var e := ReprByte(c);
      var tail := ReprBody(x[1..]) + "\"" + rest;
      assert line[p..] == e + tail;
      StepReadsBack(line, p, c, tail, current);
      assert line[p + |e|..] == line[p..][|e|..] == tail;
      QuotedReadsBack(line, p + |e|, x[1..], rest, current + [c]);
      assert current + [c] + x[1..] == current + x;
    }
  }

  lemma ClosingQuote(line: string, p: nat, rest: string, current: string)
    requires p <= |line| && line[p..] == "\"" + rest
    requires rest == "" || rest[0] == ' '
    ensures Token(line, p, Quoted, current) == Some((current, |line| - |rest|))
  {
    assert line[p] == line[p..][0] == '\"';
    if rest != "" {
      assert line[p + 1] == line[p..][1] == ' ';
    }
  }

  lemma StepReadsBack(line: string, p: nat, c: Byte, tail: string, current: string)
    requires p <= |line| && line[p..] == ReprByte(c) + tail
    ensures p + |ReprByte(c)| <= |line|
    ensures Token(line, p, Quoted, current) == Token(line, p + |ReprByte(c)|, Quoted, current + [c])
  {
    hide Token;
    ReprByteForms(c);
    if ReprByte(c) == [c] {
      PlainReadsBack(line, p, c, tail, current);
    } else if |ReprByte(c)| == 2 {
      EscapeReadsBack(line, p, c, tail, current);
    } else {
      HexStepReadsBack(line, p, c, tail, current);
    }
  }

  lemma ReprByteForms(c: Byte)
    ensures ReprByte(c) == [c] || |ReprByte(c)| == 2 || |ReprByte(c)| == 4
  {
  }

  lemma PlainReadsBack(line: string, p: nat, c: Byte, tail: string, current: string)
    requires p <= |line| && line[p..] == ReprByte(c) + tail && ReprByte(c) == [c]
    ensures p + 1 <= |line|
    ensures Token(line, p, Quoted, current) == Token(line, p + 1, Quoted, current + [c])
  {
    assert At(line, p) == line[p..][0] == c;
  }

  lemma EscapeReadsBack(line: string, p: nat, c: Byte, tail: string, current: string)
    requires p <= |line| && line[p..] == ReprByte(c) + tail && |ReprByte(c)| == 2
    ensures p + 2 <= |line|
    ensures Token(line, p, Quoted, current) == Token(line, p + 2, Quoted, current + [c])
  {
    assert At(line, p) == line[p..][0] == '\\';
    assert At(line, p + 1) == line[p..][1] == ReprByte(c)[1];
  }

  lemma HexStepReadsBack(line: string, p: nat, c: Byte, tail: string, current: string)
    requires p <= |line| && line[p..] == ReprByte(c) + tail && |ReprByte(c)| == 4
    ensures p + 4 <= |line|
    ensures Token(line, p, Quoted, current) == Token(line, p + 4, Quoted, current + [c])
  {
    hide HexDigitToInt, HexChar, IsHexDigit;
    var e := ReprByte(c);
    assert forall i :: 0 <= i < 4 ==> At(line, p + i) == line[p..][i] == e[i];
    HexReadsBack(c);
  }

  lemma HexReadsBack(c: Byte)
    ensures var h, l := HexChar(c as nat / 16), HexChar(c as nat % 16);
      IsHexDigit(h) && IsHexDigit(l) && (16 * HexDigitToInt(h) + HexDigitToInt(l)) as char == c
  {
  }

  lemma ReprReadsBack(line: string, p: nat, x: seq<Byte>, rest: string)
    requires p <= |line| && line[p..] == Repr(x) + rest
    requires rest == "" || rest[0] == ' '
    ensures p < |line| && line[p] == '\"' && |rest| <= |line| - p
    ensures line[|line| - |rest|..] == rest
    ensures Token(line, p, Plain, "") == Some((x, |line| - |rest|))
  {
    hide ReprBody;
    assert line[p] == line[p..][0] == '\"';
    assert line[p + 1..] == line[p..][1..] == ReprBody(x) + "\"" + rest;
    QuotedReadsBack(line, p + 1, x, rest, "");
    assert "" + x == x;
    assert line[|line| - |rest|..] == line[p..][|Repr(x)|..];
  }

  /** One printed argument at p, followed by rest. */
  lemma ArgReadsBack(line: string, p: nat, x: seq<Byte>, rest: string, vector: seq<string>)
    requires p <= |line| && line[p..] == Repr(x) + rest
    requires rest == "" || rest[0] == ' '
    ensures |rest| <= |line| && line[|line| - |rest|..] == rest
    ensures ArgsFrom(line, p, vector) == ArgsFrom(line, |line| - |rest|, vector + [x])
  {
    hide Token, Repr;
    ReprReadsBack(line, p, x, rest);
  }

  lemma LineEnds(line: string, vector: seq<string>)
    ensures ArgsFrom(line, |line|, vector) == Some(vector)
  {
  }

  lemma {:induction false} JoinReadsBack(line: string, p: nat, args: seq<seq<Byte>>, vector: seq<string>)
    requires p <= |line| && line[p..] == Join(args)
    ensures ArgsFrom(line, p, vector) == Some(vector + args)
    decreases |args|
  {
    hide Repr, Token, ArgsFrom;
    LineEnds(line, vector + args);
    if args == [] {
      assert vector + args == vector;
    } else if |args| == 1 {
      assert Join(args) == Repr(args[0]) + "";
      ArgReadsBack(line, p, args[0], "", vector);
      assert vector + [args[0]] == vector + args;
    } else {
      var rest := " " + Join(args[1..]);
      assert Join(args) == Repr(args[0]) + rest;
      ArgReadsBack(line, p, args[0], rest, vector);
      var next := |line| - |rest|;
      SkipOneBlank(line, next, Join(args[1..]), vector + [args[0]]);
      JoinReadsBack(line, next + 1, args[1..], vector + [args[0]]);
      assert vector + [args[0]] + args[1..] == vector + args;
    }
  }

  lemma SkipOneBlank(line: string, p: nat, rest: string, vector: seq<string>)
    requires p <= |line| && line[p..] == " " + rest
    ensures p < |line| && line[p + 1..] == rest
    ensures ArgsFrom(line, p, vector) == ArgsFrom(line, p + 1, vector)
  {
    hide Token;
    assert line[p] == line[p..][0] == ' ';
    assert line[p + 1..] == line[p..][1..];
  }

  /** The promise of the comment above sdssplitargs: whatever the byte strings,
      printing each with sdscatrepr, separated by spaces, and parsing the line
      gives the same list back. */
  lemma RoundTrip(args: seq<seq<Byte>>)
    ensures Args(Join(args)) == Some(args)
  {
    assert Join(args)[0..] == Join(args);
    JoinReadsBack(Join(args), 0, args, []);
    assert [] + args == args;
  }
}
