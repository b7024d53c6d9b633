/** Inline requests over any read boundaries: lines that end in CRLF, each of which
    is run with its arguments that are not empty. */
module RespInline {
  import opened Common
  import opened RespParser
  import opened RespWire
  import opened RespClient
  import QuotedArgs

  /** A line that a client may send: no line feed or NUL, quotes balanced, not taken
      for a multi-bulk request or QUIT. */
  predicate InlineFits(line: string) {
    && (forall i :: 0 <= i < |line| ==> line[i] != '\n' && line[i] != '\0')
    && (line != "" ==> line[0] != '*')
    && QuotedArgs.Args(line).Some?
    && (Arguments(line) != [] ==> !IsQuit(Arguments(line)))
  }

  /** A line that may not leave room for a whole read in the query buffer. */
  predicate Long(line: string) {
    |line| + 1 + IOBUF_LEN > QUERY_MAX_LEN
  }

  function Arguments(line: string): Command
    requires QuotedArgs.Args(line).Some?
  {
    NonEmpty(QuotedArgs.Args(line).value)
  }

  predicate AllInlineFit(lines: seq<string>) {
    forall i :: 0 <= i < |lines| ==> InlineFits(lines[i])
  }

  function EncodeLines(lines: seq<string>): string {
    if lines == [] then "" else lines[0] + "\r\n" + EncodeLines(lines[1..])
  }

  /** What the lines ask for: nothing for a line without arguments. */
  function Commands(lines: seq<string>): seq<Command>
    requires AllInlineFit(lines)
  {
    if lines == [] then []
    else
      var init, args := lines[..|lines| - 1], Arguments(lines[|lines| - 1]);
      Commands(init) + if args == [] then [] else [args]
  }

  lemma CommandsMore(lines: seq<string>, k: nat)
    requires AllInlineFit(lines) && k < |lines|
    ensures Commands(lines[..k + 1]) == Commands(lines[..k]) +
      if Arguments(lines[k]) == [] then [] else [Arguments(lines[k])]
  {
    assert lines[..k + 1][..k] == lines[..k];
  }

  /** Between requests: k lines have been run, and the buffer and the bytes not yet
      received spell the others. */
  ghost predicate Inlining(p: Parser, rest: string, lines: seq<string>, k: nat) {
    && AllInlineFit(lines) && k <= |lines|
    && p.dispatched == Commands(lines[..k]) && p.query + rest == EncodeLines(lines[k..])
    && !p.closing && p.multibulkLen == 0 && p.bulkLen == -1 && p.argv == []
    && (p.reqType == Inline || p.reqType == Unknown)
  }

  /** The next line has not arrived completely. */
  ghost predicate Waits(p: Parser, lines: seq<string>, k: nat) {
    k <= |lines| && |p.query| < if k < |lines| then |lines[k]| + 2 else 1
  }

  /** What a buffer that waits with more than 64 KiB costs. */
  function Complaint(query: string): seq<ProtocolError> {
    if |query| > INLINE_MAX_LEN then [TooBigInline] else []
  }

  lemma NextLine(p: Parser, rest: string, lines: seq<string>, k: nat)
    requires Inlining(p, rest, lines, k) && p.query != ""
    ensures k < |lines| && p.query + rest == lines[k] + "\r\n" + EncodeLines(lines[k + 1..])
    ensures p.query[0] != '*' && Typed(p) == p.(reqType := Inline)
  {
    hide Commands, QuotedArgs.Args, IsQuit;
    assert k < |lines|;
    assert lines[k..][0] == lines[k] && lines[k..][1..] == lines[k + 1..];
    assert InlineFits(lines[k]);
    assert p.query[0] == (p.query + rest)[0];
  }

  /** A complete line is run, and what follows it stays. */
  lemma LineRuns(p: Parser, rest: string, lines: seq<string>, k: nat)
    requires Inlining(p, rest, lines, k) && p.query != "" && !Waits(p, lines, k)
    ensures Valid(p) && k < |lines|
    ensures var (p', ok) := OneRequest(p);
      && ok && Inlining(Dispatch(p'), rest, lines, k + 1)
      && |Dispatch(p').query| < |p.query| && Dispatch(p').errors == p.errors
  {
    hide Commands, QuotedArgs.Args, IsQuit, EncodeLines, NonEmpty, InlineInput, MultiBulkInput;
    NextLine(p, rest, lines, k);
    var line := lines[k];
    assert InlineFits(line);
    var after := p.query[|line| + 2..];
    FrontOf(p.query, rest, line + "\r\n", EncodeLines(lines[k + 1..]));
    assert p.query == line + "\r\n" + after;
    InlineLine(Typed(p), line, true, after);
    CommandsMore(lines, k);
  }

  lemma FrontOf(query: string, rest: string, front: string, back: string)
    requires query + rest == front + back && |query| >= |front|
    ensures query[..|front|] == front && query == front + query[|front|..] && query[|front|..] + rest == back
  {
    var w := query + rest;
    assert query[..|front|] == w[..|front|] == front;
    assert query[|front|..] + rest == w[|front|..] == back;
  }

  /** An incomplete line waits, with a complaint if it is long; it is not given up. */
  lemma LineWaits(p: Parser, rest: string, lines: seq<string>, k: nat)
    requires Inlining(p, rest, lines, k) && p.query != "" && Waits(p, lines, k)
    ensures Valid(p)
    ensures OneRequest(p) == (Typed(p).(errors := p.errors + Complaint(p.query)), false)
    ensures Inlining(OneRequest(p).0, rest, lines, k)
  {
    hide Commands, QuotedArgs.Args, IsQuit, EncodeLines, NonEmpty, MultiBulkInput;
    NextLine(p, rest, lines, k);
    var line := lines[k];
    assert InlineFits(line);
    forall i | 0 <= i < |p.query| ensures p.query[i] != '\n' {
      assert p.query[i] == (line + "\r\n" + EncodeLines(lines[k + 1..]))[i];
    }
    NoLineFeed(p.query, 0);
    assert p.errors + [] == p.errors;
  }

  lemma {:induction false} NoLineFeed(s: string, pos: nat)
    requires pos <= |s| && forall i :: pos <= i < |s| ==> s[i] != '\n'
    ensures StrChr(s, pos, '\n') == None
    decreases |s| - pos
  {
    if pos < |s| {
      NoLineFeed(s, pos + 1);
    }
  }

  /** Processing the buffer runs every complete line in it and complains, at most
      once, about an incomplete one of more than 64 KiB. */
  lemma {:induction false} UserInputInline(p: Parser, rest: string, lines: seq<string>, k: nat) returns (k': nat)
    requires Inlining(p, rest, lines, k)
    ensures Valid(p) && k <= k'
    ensures var q := UserInput(p);
      && Inlining(q, rest, lines, k') && Waits(q, lines, k')
      && q.errors == p.errors + Complaint(q.query)
    decreases |p.query|
  {
    hide OneRequest, EncodeLines, Commands, QuotedArgs.Args, IsQuit, Dispatch, InlineFits;
    if p.query == "" {
      k' := k;
      NothingWaits(p, rest, lines, k);
    } else if Waits(p, lines, k) {
      LineWaits(p, rest, lines, k);
      RequestKeepsValid(p);
      k' := k;
    } else {
      LineRuns(p, rest, lines, k);
      RequestKeepsValid(p);
      k' := UserInputInline(Dispatch(OneRequest(p).0), rest, lines, k + 1);
    }
  }

  lemma NothingWaits(p: Parser, rest: string, lines: seq<string>, k: nat)
    requires Inlining(p, rest, lines, k) && p.query == ""
    ensures Valid(p) && Waits(p, lines, k) && p.errors + Complaint(p.query) == p.errors
  {
    hide Commands, EncodeLines;
  }

  /** One read leaves the buffer within the query limit. */
  lemma ReadFits(p: Parser, rest: string, lines: seq<string>, k: nat, n: nat)
    requires Inlining(p, rest, lines, k) && Waits(p, lines, k) && 0 < n <= |rest| && n <= IOBUF_LEN
    ensures var q := p.(query := p.query + rest[..n]);
      && Inlining(q, rest[n..], lines, k) && Valid(q)
      && (|q.query| > QUERY_MAX_LEN ==> k < |lines| && Long(lines[k]))
    ensures Valid(p) && ReadLength(p) == IOBUF_LEN
  {
    hide Commands, EncodeLines, QuotedArgs.Args, IsQuit;
    assert rest == rest[..n] + rest[n..];
    assert p.query + rest[..n] + rest[n..] == p.query + rest;
    if k < |lines| {
      assert InlineFits(lines[k]);
    }
  }

  lemma LengthLeft(lines: seq<string>, k: nat)
    requires k <= |lines|
    ensures |EncodeLines(lines[k..])| >= if k < |lines| then |lines[k]| + 2 else 0
  {
  }

  lemma AllRun(p: Parser, lines: seq<string>, k: nat)
    requires Inlining(p, "", lines, k) && Waits(p, lines, k)
    ensures k == |lines| && p.dispatched == Commands(lines) && p.query == ""
  {
    hide Commands;
    LengthLeft(lines, k);
    assert p.query + "" == p.query;
    assert lines[..|lines|] == lines;
  }

  /** A session of inline requests, cut into reads of any sizes: exactly the lists
      of non-empty arguments are run, in order, lines of more than 64 KiB included.
      The only error is the complaint about those, and there is none when all lines
      are shorter.  The client is freed, at line k, only if that line may overflow
      the query buffer. */
  method ServeInline(lines: seq<string>, sizes: nat -> nat) returns (c: Client, ghost k: nat)
    requires AllInlineFit(lines)
    ensures k <= |lines| && !c.closing && c.dispatched == Commands(lines[..k])
    ensures !c.freed ==> k == |lines| && c.dispatched == Commands(lines) && c.query == ""
    ensures c.freed ==> k < |lines| && Long(lines[k])
    ensures forall i :: 0 <= i < |c.errors| ==> c.errors[i] == TooBigInline
    ensures (forall i :: 0 <= i < |lines| ==> |lines[i]| < INLINE_MAX_LEN) ==> c.errors == []
  {
    hide Valid, EncodeLines, Commands, UserInput, ReadLength, InlineFits;
    c := new Client();
    var rest := EncodeLines(lines);
    k := 0;
    var i := 0;
    FreshInlining(lines);
    while rest != ""
      invariant fresh(c) && !c.freed
      invariant Valid(c.State()) && Inlining(c.State(), rest, lines, k) && Waits(c.State(), lines, k)
      invariant forall j :: 0 <= j < |c.errors| ==> c.errors[j] == TooBigInline
      invariant (forall j :: 0 <= j < |lines| ==> |lines[j]| < INLINE_MAX_LEN) ==> c.errors == []
      decreases |rest|
    {
      ReadFits(c.State(), rest, lines, k, 1);
      var limit := c.ReadLimit();
      var n := if sizes(i) < 1 then 1 else if sizes(i) > limit then limit else sizes(i);
      if n > |rest| {
        n := |rest|;
      }
      ReadFits(c.State(), rest, lines, k, n);
      ghost var p := c.State().(query := c.query + rest[..n]);
      c.HandleRead(Bytes(rest[..n]));
      rest := rest[n..];
      i := i + 1;
      if c.freed {
        return;
      }
      k := UserInputInline(p, rest, lines, k);
    }
    AllRun(c.State(), lines, k);
    assert lines[..|lines|] == lines;
  }

  lemma FreshInlining(lines: seq<string>)
    requires AllInlineFit(lines)
    ensures Valid(FRESH) && Inlining(FRESH, EncodeLines(lines), lines, 0)
    ensures Waits(FRESH, lines, 0)
  {
    hide EncodeLines, InlineFits;
    assert lines[0..] == lines && "" + EncodeLines(lines) == EncodeLines(lines);
  }
}
