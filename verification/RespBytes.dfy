/** The request parser on any bytes: which lines it accepts, and what the others cost. */
module RespBytes {
  import opened Common
  import opened Decimal
  import opened RespParser
  import opened RespWire
  import QuotedArgs
  import QuotedWords

  // ----- lines -----

  /** The line is a prefix byte and the text of n. */
  predicate SaysNumber(line: string, prefix: char, n: int) {
    line == [prefix] + Text(n)
  }

  /** An argument's length line that the parser accepts. */
  ghost predicate IsLengthLine(line: string) {
    exists n: int :: 0 <= n <= 512 * 1024 * 1024 && SaysNumber(line, '$', n)
  }

  /** A line with the number of arguments that the parser accepts, zero and negative
      64-bit numbers included. */
  ghost predicate IsCountLine(line: string) {
    exists n: int :: -0x8000_0000_0000_0000 <= n <= 1024 * 1024 && SaysNumber(line, '*', n)
  }

  /** What a refused length line is answered with. */
  function LengthError(line: string): ProtocolError {
    if line == "" then ExpectedDollar('\r')
    else if line[0] == '$' then BadBulkLength
    else ExpectedDollar(line[0])
  }

  lemma LineFound(s: string, pos: nat, line: string, tail: string)
    requires pos <= |s| && NoReturn(line) && s[pos..] == line + "\r\n" + tail
    ensures var newline := pos + |line|;
      && StrChr(s, pos, '\r') == Some(newline) && newline <= |s| - 2 && s[newline + 2..] == tail
      && s[pos] == (if line == "" then '\r' else line[0])
      && (line != "" ==> s[pos + 1..newline] == line[1..])
  {
    var w, newline := s[pos..], pos + |line|;
    assert s[pos..newline] == w[..|line|] == line;
    StrChrSkips(s, pos, newline);
    assert s[newline] == w[|line|] == '\r';
    assert s[newline + 2..] == w[|line| + 2..] == tail;
    assert s[pos] == w[0];
    if line != "" {
      assert s[pos + 1..newline] == w[1..|line|] == line[1..];
    }
  }

  /** No carriage return before the end, or before the first NUL. */
  lemma LineNotFound(s: string, pos: nat, front: string, more: string)
    requires pos <= |s| && NoReturn(front) && s[pos..] == front + more && (more != "" ==> more[0] == '\0')
    ensures StrChr(s, pos, '\r') == None
  {
    var end := pos + |front|;
    assert s[pos..end] == front;
    StrChrSkips(s, pos, end);
    if more != "" {
      assert s[end] == s[pos..][|front|] == '\0';
    }
  }

  lemma NumberRead(line: string, prefix: char, n: int)
    requires SaysNumber(line, prefix, n) && InRange(n)
    ensures line != "" && line[0] == prefix && Reads(line[1..]) == Some(n)
  {
    hide Reads, Text;
    assert line[1..] == Text(n);
  }

  lemma ReadNumber(line: string)
    requires line != "" && Reads(line[1..]).Some?
    ensures InRange(Reads(line[1..]).value) && SaysNumber(line, line[0], Reads(line[1..]).value)
  {
    hide Reads, Text;
    assert line == [line[0]] + line[1..];
  }

  // ----- an argument's length -----

  /** A length line in the buffer: accepted exactly when it is a dollar sign and the text
      of a number up to 512 MiB; then that is the length, and what follows the line is
      left to read.  Any other line is refused with one error, and the client closes. */
  lemma LengthLine(p: Parser, pos: nat, line: string, tail: string)
    requires pos <= |p.query| && NoReturn(line) && p.query[pos..] == line + "\r\n" + tail
    ensures IsLengthLine(line) ==>
      var h := BulkHeader(p, pos);
      && h.Done? && SaysNumber(line, '$', h.p.bulkLen) && h.p.query[h.pos..] == tail
      && h.p == p.(bulkLen := h.p.bulkLen, query := h.p.query)
    ensures !IsLengthLine(line) ==>
      BulkHeader(p, pos) == Refuse(p.(errors := p.errors + [LengthError(line)], closing := true, query := p.query[pos..]))
  {
    hide BulkHeader;
    if IsLengthLine(line) {
      var n: nat :| n <= 512 * 1024 * 1024 && SaysNumber(line, '$', n);
      LengthLineAccepted(p, pos, line, tail, n);
    } else {
      LengthLineRefused(p, pos, line, tail);
    }
  }

  lemma LengthLineAccepted(p: Parser, pos: nat, line: string, tail: string, n: nat)
    requires pos <= |p.query| && NoReturn(line) && p.query[pos..] == line + "\r\n" + tail
    requires n <= 512 * 1024 * 1024 && SaysNumber(line, '$', n)
    ensures var h := BulkHeader(p, pos);
      && h.Done? && h.p.bulkLen == n && h.p.query[h.pos..] == tail
      && h.p == p.(bulkLen := h.p.bulkLen, query := h.p.query)
  {
    hide StrChr, Reads, SaysNumber, NoReturn;
    LineFound(p.query, pos, line, tail);
    NumberRead(line, '$', n);
    assert p.query[pos + |line| + 2..][0..] == tail;
  }

  lemma LengthLineRefused(p: Parser, pos: nat, line: string, tail: string)
    requires pos <= |p.query| && NoReturn(line) && p.query[pos..] == line + "\r\n" + tail && !IsLengthLine(line)
    ensures
      BulkHeader(p, pos) == Refuse(p.(errors := p.errors + [LengthError(line)], closing := true, query := p.query[pos..]))
  {
    hide StrChr, Reads, SaysNumber, NoReturn;
    LineFound(p.query, pos, line, tail);
    if line != "" && line[0] == '$' && Reads(line[1..]).Some? {
      ReadNumber(line);
    }
  }

  /** Without a carriage return the parser waits, up to 64 KiB. */
  lemma LengthLineMissing(p: Parser, pos: nat, front: string, more: string)
    requires pos <= |p.query| && NoReturn(front) && p.query[pos..] == front + more && (more != "" ==> more[0] == '\0')
    ensures BulkHeader(p, pos) ==
      if |p.query| <= 64 * 1024 then Wait
      else Refuse(p.(errors := p.errors + [TooBigBulkCount], closing := true))
  {
    hide StrChr, Reads;
    LineNotFound(p.query, pos, front, more);
    assert p.query[0..] == p.query;
  }

  /** A carriage return that ends the buffer is not enough. */
  lemma LengthLineUnfinished(p: Parser, pos: nat, line: string)
    requires pos <= |p.query| && NoReturn(line) && p.query[pos..] == line + "\r"
    ensures BulkHeader(p, pos) == Wait
  {
    hide Reads;
    var s, end := p.query, pos + |line|;
    assert s[pos..end] == s[pos..][..|line|] == line;
    StrChrSkips(s, pos, end);
    assert s[end] == s[pos..][|line|] == '\r';
  }

  // ----- the number of arguments -----

  ghost predicate AtCount(p: Parser) {
    Valid(p) && !p.closing && p.reqType == MultiBulk && p.multibulkLen == 0
  }

  lemma AtCountStartsWithStar(p: Parser, line: string, tail: string)
    requires AtCount(p) && p.query == line + "\r\n" + tail
    ensures line != "" && line[0] == '*'
  {
  }

  /** The line with the number of arguments: accepted exactly when it is the text of a
      64-bit number up to 2^20 after its star.  Any other is refused with one error. */
  lemma CountLine(p: Parser, line: string, tail: string)
    requires AtCount(p) && NoReturn(line) && p.query == line + "\r\n" + tail
    ensures IsCountLine(line) ==>
      var h := CountHeader(p);
      && h.Done? && h.p == p.(multibulkLen := h.p.multibulkLen) && p.query[h.pos..] == tail
      && (exists n: int :: SaysNumber(line, '*', n) && h.p.multibulkLen == if n <= 0 then 0 else n)
    ensures !IsCountLine(line) ==>
      CountHeader(p) == Refuse(p.(errors := p.errors + [BadMultiBulkLength], closing := true))
  {
    hide StrChr, Reads, SaysNumber;
    assert p.query[0..] == p.query;
    LineFound(p.query, 0, line, tail);
    AtCountStartsWithStar(p, line, tail);
    if IsCountLine(line) {
      var n: int :| -0x8000_0000_0000_0000 <= n <= 1024 * 1024 && SaysNumber(line, '*', n);
      NumberRead(line, '*', n);
    } else if Reads(line[1..]).Some? {
      ReadNumber(line);
    }
  }

  lemma CountLineMissing(p: Parser, front: string, more: string)
    requires AtCount(p) && NoReturn(front) && p.query == front + more && (more != "" ==> more[0] == '\0')
    ensures CountHeader(p) ==
      if |p.query| <= 64 * 1024 then Wait
      else Refuse(p.(errors := p.errors + [TooBigCount], closing := true))
  {
    hide StrChr, Reads;
    assert p.query[0..] == p.query;
    LineNotFound(p.query, 0, front, more);
  }

  lemma CountLineUnfinished(p: Parser, line: string)
    requires AtCount(p) && NoReturn(line) && p.query == line + "\r"
    ensures CountHeader(p) == Wait
  {
    hide Reads;
    var s := p.query;
    assert s[0..|line|] == line;
    StrChrSkips(s, 0, |line|);
    assert s[|line|] == '\r';
  }

  // ----- what the dispatch loop makes of them -----

  /** Between requests. */
  ghost predicate Between(p: Parser) {
    Valid(p) && !p.closing && p.reqType == Unknown
  }

  lemma BetweenIsReset(p: Parser)
    requires Between(p)
    ensures p.multibulkLen == 0 && p.bulkLen == -1 && p.argv == []
    ensures p.query != "" && p.query[0] == '*' ==>
      Typed(p) == p.(reqType := MultiBulk) && AtCount(Typed(p)) && OneRequest(p) == MultiBulkInput(Typed(p))
  {
    hide MultiBulkInput, InlineInput;
  }

  lemma UserInputStep(p: Parser)
    requires Valid(p) && p.query != "" && !p.closing
    ensures Valid(if OneRequest(p).1 then Dispatch(OneRequest(p).0) else OneRequest(p).0)
    ensures UserInput(p) == if OneRequest(p).1 then UserInput(Dispatch(OneRequest(p).0)) else OneRequest(p).0
  {
    hide OneRequest, Dispatch;
    RequestKeepsValid(p);
  }

  /** A command of no or fewer arguments is skipped: nothing is run or replied, and what
      follows the line is next. */
  lemma EmptyCommandSkipped(p: Parser, n: int, tail: string)
    requires Between(p) && -0x8000_0000_0000_0000 <= n <= 0
    requires p.query == "*" + Text(n) + "\r\n" + tail
    ensures Valid(p.(query := tail)) && UserInput(p) == UserInput(p.(query := tail))
  {
    hide MultiBulkInput, CountHeader, Text, SaysNumber, UserInput;
    var line := "*" + Text(n);
    assert p.query == line + "\r\n" + tail;
    assert SaysNumber(line, '*', n) by { StarSays(n); }
    NumberHasNoReturn(line, '*', n);
    BetweenIsReset(p);
    var t := Typed(p);
    CountLine(t, line, tail);
    SameNumber(line, n);
    EmptyCount(t, line, tail);
    UserInputStep(p);
    assert Dispatch(t.(query := tail)) == p.(query := tail);
  }

  lemma StarSays(n: int)
    ensures SaysNumber("*" + Text(n), '*', n)
  {
  }

  lemma NumberHasNoReturn(line: string, prefix: char, n: int)
    requires SaysNumber(line, prefix, n) && prefix != '\r' && prefix != '\0'
    ensures NoReturn(line)
  {
    hide Digits;
    DigitsDenote(if n < 0 then -n else n);
  }

  lemma SameNumber(line: string, n: int)
    requires SaysNumber(line, '*', n)
    ensures forall m: int :: SaysNumber(line, '*', m) ==> m == n
  {
    hide Text;
    forall m: int | SaysNumber(line, '*', m) ensures m == n {
      assert line[1..] == Text(m) == Text(n);
      TextIsInjective(m, n);
    }
  }

  lemma EmptyCount(t: Parser, line: string, tail: string)
    requires AtCount(t)
    requires CountHeader(t).Done? && CountHeader(t).p == t.(multibulkLen := 0) && t.query[CountHeader(t).pos..] == tail
    ensures MultiBulkInput(t) == (t.(query := tail), true)
  {
    hide CountHeader;
    assert t.(multibulkLen := 0) == t;
  }

  /** A line with a bad number of arguments: one error, the client closes, and nothing is
      run. */
  lemma BadCountRefused(p: Parser, line: string, tail: string)
    requires Between(p) && NoReturn(line) && p.query == line + "\r\n" + tail
    requires line != "" && line[0] == '*' && !IsCountLine(line)
    ensures UserInput(p) ==
      p.(reqType := MultiBulk, errors := p.errors + [BadMultiBulkLength], closing := true)
  {
    hide CountHeader, IsCountLine;
    BetweenIsReset(p);
    CountLine(Typed(p), line, tail);
    UserInputStep(p);
  }

  // ----- a bad line after good arguments -----

  /** Whole arguments in the buffer are taken one after the other. */
  lemma {:induction false} ArgumentsTaken(p: Parser, pos: nat, args: seq<string>, rest: string)
    returns (p': Parser, pos': nat)
    requires pos <= |p.query| && p.bulkLen == -1 && p.multibulkLen > |args|
    requires (forall i :: 0 <= i < |args| ==> |args[i]| <= 512 * 1024 * 1024)
    requires p.query[pos..] == Bulks(args) + rest
    ensures pos' <= |p'.query| && p'.query[pos'..] == rest
    ensures p' == p.(argv := p.argv + args, query := p'.query, multibulkLen := p.multibulkLen - |args|)
    ensures Arguments(p, pos) == Arguments(p', pos')
    decreases |args|
  {
    hide Arguments, Line;
    if args == [] {
      p', pos' := p, pos;
      assert Bulks(args) + rest == rest;
      assert p.argv + args == p.argv;
    } else {
      var arg := args[0];
      var after := Bulks(args[1..]) + rest;
      assert Bulks(args) + rest == Line('$', |arg|) + (arg + "\r\n" + after);
      var p1, pos1 := ArgumentTaken(p, pos, arg, after);
      p', pos' := ArgumentsTaken(p1, pos1, args[1..], rest);
      assert p.argv + [arg] + args[1..] == p.argv + args;
    }
  }

  lemma ArgumentTaken(p: Parser, pos: nat, arg: string, after: string) returns (p': Parser, pos': nat)
    requires pos <= |p.query| && p.bulkLen == -1 && p.multibulkLen > 0 && |arg| <= 512 * 1024 * 1024
    requires p.query[pos..] == Line('$', |arg|) + (arg + "\r\n" + after)
    ensures pos' <= |p'.query| && p'.query[pos'..] == after
    ensures p' == p.(argv := p.argv + [arg], query := p'.query, multibulkLen := p.multibulkLen - 1)
    ensures Arguments(p, pos) == Arguments(p', pos')
  {
    hide BulkHeader, TakeBulk, Line;
    var h := LengthTaken(p, pos, arg, after);
    TakenBytes(h.p.query, h.pos, arg, "", after);
    p', pos' := TakeBulk(h.p, h.pos).0, TakeBulk(h.p, h.pos).1;
    assert h.p.query[h.pos + |arg| + 2..] == after;
  }

  lemma LengthTaken(p: Parser, pos: nat, arg: string, after: string) returns (h: Header)
    requires pos <= |p.query| && p.bulkLen == -1 && p.multibulkLen > 0 && |arg| <= 512 * 1024 * 1024
    requires p.query[pos..] == Line('$', |arg|) + (arg + "\r\n" + after)
    ensures h == BulkHeader(p, pos) && h.Done? && h.pos <= |h.p.query|
    ensures h.p == p.(bulkLen := |arg|, query := h.p.query)
    ensures h.p.query[h.pos..] + "" == arg + "\r\n" + after
  {
    hide StrChr, Reads, Digits;
    h := BulkHeader(p, pos);
    assert p.query[pos..] + "" == p.query[pos..];
    LineRead(p.query, pos, "", '$', |arg|, arg + "\r\n" + after);
    assert h.p.query[h.pos..] + "" == h.p.query[h.pos..];
  }

  /** A bad length line, first or after any arguments: one error, which names the byte
      found in place of the dollar sign if there is one; the client closes, and the
      command is not run. */
  lemma BadLengthRefused(p: Parser, n: int, args: seq<string>, line: string, tail: string)
    requires Between(p) && |args| < n <= 1024 * 1024
    requires (forall i :: 0 <= i < |args| ==> |args[i]| <= 512 * 1024 * 1024)
    requires NoReturn(line) && !IsLengthLine(line)
    requires p.query == "*" + Text(n) + "\r\n" + Bulks(args) + line + "\r\n" + tail
    ensures var q := UserInput(p);
      q.closing && q.errors == p.errors + [LengthError(line)] && q.dispatched == p.dispatched
  {
    hide CountHeader, Arguments, BulkHeader, Text, SaysNumber, IsLengthLine, Bulks;
    var count, rest := "*" + Text(n), line + "\r\n" + tail;
    assert p.query == count + "\r\n" + (Bulks(args) + rest);
    StarSays(n);
    NumberHasNoReturn(count, '*', n);
    BetweenIsReset(p);
    var t := Typed(p);
    CountLine(t, count, Bulks(args) + rest);
    SameNumber(count, n);
    var h := CountHeader(t);
    var p', pos' := ArgumentsTaken(h.p, h.pos, args, rest);
    LengthLine(p', pos', line, tail);
    assert Arguments(p', pos') == (BulkHeader(p', pos').p, false) by { RefusedInside(p', pos'); }
    UserInputStep(p);
  }

  lemma RefusedInside(p: Parser, pos: nat)
    requires pos <= |p.query| && p.multibulkLen > 0 && p.bulkLen == -1 && BulkHeader(p, pos).Refuse?
    ensures Arguments(p, pos) == (BulkHeader(p, pos).p, false)
  {
    hide BulkHeader;
  }

  /** The first length line of a command names the byte that is not a dollar sign. */
  lemma ColonRefused()
    ensures var q := UserInput(FRESH.(query := "*1\r\n:4\r\nping\r\n"));
      q.closing && q.errors == [ExpectedDollar(':')] && q.dispatched == []
  {
    hide UserInput, IsLengthLine;
    var p := FRESH.(query := "*1\r\n:4\r\nping\r\n");
    assert Text(1) == "1";
    assert !IsLengthLine(":4") by { NotDollar(":4"); }
    assert p.query == "*" + Text(1) + "\r\n" + Bulks([]) + ":4" + "\r\n" + "ping\r\n";
    BadLengthRefused(p, 1, [], ":4", "ping\r\n");
  }

  lemma NotDollar(line: string)
    requires line == "" || line[0] != '$'
    ensures !IsLengthLine(line)
  {
  }

  // ----- quit -----

  /** The command that closes the connection, in any case. */
  lemma QuitMeans(argv: Command)
    requires argv != []
    ensures var c := CString(argv[0]);
      IsQuit(argv) <==> |c| == 4 && c[0] in "qQ" && c[1] in "uU" && c[2] in "iI" && c[3] in "tT"
  {
    hide CString;
    var c := CString(argv[0]);
    if |c| == 4 {
      assert Lower(c) == [LowerChar(c[0]), LowerChar(c[1]), LowerChar(c[2]), LowerChar(c[3])];
    }
  }

  /** It is not run: the client closes, and what follows it stays unread. */
  lemma QuitCloses(p: Parser, cmd: Command, tail: string)
    requires Between(p) && ArgsFit(cmd) && cmd != [] && IsQuit(cmd)
    requires p.query == EncodeCommand(cmd) + tail
    ensures UserInput(p) == p.(reqType := MultiBulk, argv := cmd, query := tail, closing := true)
  {
    hide MultiBulkInput, IsQuit, Bulks, Digits, ArgsFit;
    BetweenIsReset(p);
    WholeCommand(Typed(p), cmd, tail);
    UserInputStep(p);
  }

  // ----- inline requests -----

  lemma {:induction false} NonEmptyOfBoth(a: seq<string>, b: seq<string>)
    ensures NonEmpty(a + b) == NonEmpty(a) + NonEmpty(b)
    decreases |a|
  {
    if a == [] {
      assert a + b == b;
    } else {
      assert (a + b)[1..] == a[1..] + b;
      NonEmptyOfBoth(a[1..], b);
    }
  }

  /** Empty arguments are dropped, wherever they stand, and no others. */
  lemma {:induction false} NonEmptyMeans(a: seq<string>, b: seq<string>)
    ensures NonEmpty(a + [""] + b) == NonEmpty(a + b)
    ensures "" !in a ==> NonEmpty(a) == a
  {
    hide NonEmpty;
    NonEmptyOfBoth(a + [""], b);
    NonEmptyOfBoth(a, [""]);
    NonEmptyOfBoth(a, b);
    NonEmptyOfOne();
    if "" !in a {
      AllKept(a);
    }
  }

  lemma NonEmptyOfOne()
    ensures NonEmpty([""]) == []
  {
    assert [""][1..] == [];
  }

  lemma {:induction false} AllKept(a: seq<string>)
    requires "" !in a
    ensures NonEmpty(a) == a
  {
    if a != [] {
      AllKept(a[1..]);
      assert a == [a[0]] + a[1..];
    }
  }

  ghost predicate OneLine(line: string) {
    forall i :: 0 <= i < |line| ==> line[i] != '\n' && line[i] != '\0'
  }

  /** Words on a CRLF line are the arguments, but for the empty ones; what follows the
      line stays. */
  lemma WordsRun(p: Parser, lead: string, words: seq<QuotedWords.Word>, gaps: seq<string>, rest: string)
    requires QuotedWords.Blanks(lead) && QuotedWords.LineFits(words, gaps)
    requires OneLine(lead + QuotedWords.LineText(words, gaps))
    requires p.query == lead + QuotedWords.LineText(words, gaps) + "\r\n" + rest
    ensures InlineInput(p) == (p.(argv := NonEmpty(QuotedWords.Values(words)), query := rest), true)
  {
    hide InlineInput, QuotedArgs.Args, QuotedWords.LineText, QuotedWords.LineFits, QuotedWords.Values;
    QuotedWords.ArgsOfLine(lead, words, gaps);
    InlineLine(p, lead + QuotedWords.LineText(words, gaps), true, rest);
  }

  /** Unbalanced quotes on a line: one error, and the client closes. */
  lemma FlawStops(p: Parser, lead: string, words: seq<QuotedWords.Word>, gaps: seq<string>, f: QuotedWords.Flaw,
                  rest: string)
    requires Between(p) && QuotedWords.Blanks(lead) && QuotedWords.LineFits(words, gaps) && QuotedWords.FlawFits(f)
    requires words != [] ==> gaps[|gaps| - 1] != ""
    requires OneLine(lead + QuotedWords.LineText(words, gaps) + QuotedWords.FlawText(f))
    requires p.query == lead + QuotedWords.LineText(words, gaps) + QuotedWords.FlawText(f) + "\r\n" + rest
    requires p.query[0] != '*'
    ensures UserInput(p) == p.(reqType := Inline, errors := p.errors + [UnbalancedQuotes], closing := true)
  {
    hide QuotedArgs.Args, QuotedWords.LineText, QuotedWords.LineFits, QuotedWords.FlawText, QuotedWords.FlawFits, StrChr;
    QuotedWords.FlawRefused(lead, words, gaps, f);
    var line := lead + QuotedWords.LineText(words, gaps) + QuotedWords.FlawText(f);
    LineRefused(Typed(p), line, rest);
    UserInputStep(p);
  }

  lemma LineRefused(p: Parser, line: string, rest: string)
    requires OneLine(line) && p.query == line + "\r\n" + rest && QuotedArgs.Args(line) == None
    ensures InlineInput(p) == (p.(errors := p.errors + [UnbalancedQuotes], closing := true), false)
  {
    hide QuotedArgs.Args, StrChr, NonEmpty;
    assert forall i :: 0 <= i < |line| ==> p.query[i] == line[i];
    FindsLineFeed(p.query, 0, |line| + 1);
    assert p.query[..|line|] == line;
    assert p.query[0..] == p.query;
  }

  /** Without a line feed, before the end or the first NUL, an inline request waits; over
      64 KiB it is answered with an error each time, and the client stays. */
  lemma InlineLineMissing(p: Parser, front: string, more: string)
    requires Between(p) && p.query == front + more && p.query != "" && p.query[0] != '*'
    requires OneLine(front) && (more != "" ==> more[0] == '\0')
    ensures UserInput(p) ==
      p.(reqType := Inline, errors := p.errors + if |p.query| > 64 * 1024 then [TooBigInline] else [])
  {
    hide QuotedArgs.Args, NonEmpty, StrChr;
    var t := Typed(p);
    NoFeed(p.query, 0, |front|);
    assert p.errors + [] == p.errors;
    UserInputStep(p);
  }

  lemma {:induction false} NoFeed(s: string, pos: nat, end: nat)
    requires pos <= end <= |s| && forall i :: pos <= i < end ==> s[i] != '\n' && s[i] != '\0'
    requires end < |s| ==> s[end] == '\0'
    ensures StrChr(s, pos, '\n') == None
    decreases end - pos
  {
    if pos < end {
      NoFeed(s, pos + 1, end);
    }
  }

  // ----- reading -----

  /** A read asks for 16 KiB, but never for more than a big argument and its CRLF still
      lack. */
  lemma ReadLengthMeans(p: Parser)
    ensures var big := p.reqType == MultiBulk && p.multibulkLen > 0 && p.bulkLen >= 32 * 1024;
      && ReadLength(p) <= 16 * 1024
      && (ReadLength(p) == 16 * 1024 || (big && |p.query| + ReadLength(p) == p.bulkLen + 2))
      && (big ==> |p.query| + ReadLength(p) <= p.bulkLen + 2)
  {
  }

  /** One request, byte for byte. */
  lemma GetOnTheWire()
    ensures EncodeCommand(["GET", "k"]) == "*2\r\n$3\r\nGET\r\n$1\r\nk\r\n"
  {
    hide Bulk, Bulks;
    BulksOnTheWire();
    assert Digits(2) == "2";
    assert Bulks(["GET", "k"]) == "$3\r\nGET\r\n" + "$1\r\nk\r\n";
  }

  lemma BulksOnTheWire()
    ensures Bulks(["GET", "k"]) == "$3\r\nGET\r\n" + "$1\r\nk\r\n"
  {
    hide Bulk;
    var cmd := ["GET", "k"];
    assert cmd[1..] == ["k"] && cmd[1..][1..] == [];
    BulkOnTheWire();
    assert Bulks(["k"]) == Bulk("k") + Bulks([]);
  }

  lemma BulkOnTheWire()
    ensures Bulk("k") == "$1\r\nk\r\n" && Bulk("GET") == "$3\r\nGET\r\n"
  {
    assert Digits(1) == "1" && Digits(3) == "3";
  }
}
