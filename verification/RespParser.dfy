/** The resumable request parser of the server, as functions on its state.

    `Parser` holds the fields of a client that the parser reads and writes, the
    protocol errors it has replied and the commands it has dispatched.  The
    functions take the source's branches one by one; RespClient proves that the
    loops over the client's fields compute them. */
module RespParser {
  import opened Common
  import opened Decimal
  import QuotedArgs

  const INLINE_MAX_LEN: nat := 64 * 1024
  const MBULK_BIG_ARG: nat := 32 * 1024
  const MAX_ARGS: nat := 1024 * 1024
  const MAX_BULK: nat := 512 * 1024 * 1024
  const IOBUF_LEN: nat := 16 * 1024
  const QUERY_MAX_LEN: nat := 512 * 1024 * 1024

  type Command = seq<string>

  datatype Request = Unknown | MultiBulk | Inline

  datatype ProtocolError =
    | TooBigInline | UnbalancedQuotes | TooBigCount | BadMultiBulkLength
    | TooBigBulkCount | ExpectedDollar(got: char) | BadBulkLength

  datatype Parser = Parser(
    reqType: Request,
    multibulkLen: nat,
    bulkLen: int,
    query: string,
    argv: Command,
    closing: bool,
    errors: seq<ProtocolError>,
    dispatched: seq<Command>)

  const FRESH: Parser := Parser(Unknown, 0, -1, "", [], false, [], [])

  /** strchr: stops at the first NUL, or at the terminator of the buffer. */
  function StrChr(s: string, pos: nat, c: char): (r: Option<nat>)
    requires pos <= |s|
    ensures r.Some? ==> pos <= r.value < |s| && s[r.value] == c
    decreases |s| - pos
  {
    if pos == |s| then None
    else if s[pos] == c then Some(pos)
    else if s[pos] == '\0' then None
    else StrChr(s, pos + 1, c)
  }

  /** sdsrange(s, start, -1). */
  function Range(s: string, start: nat): string {
    if start <= |s| then s[start..] else ""
  }

  function Fail(p: Parser, e: ProtocolError, pos: nat): Parser {
    p.(errors := p.errors + [e], closing := true, query := Range(p.query, pos))
  }

  /** What every reachable state of a live client satisfies. */
  ghost predicate Valid(p: Parser) {
    && -1 <= p.bulkLen <= MAX_BULK
    && (!p.closing ==>
        && (p.multibulkLen == 0 ==> p.argv == [] && p.bulkLen == -1)
        && (p.multibulkLen > 0 ==> p.reqType == MultiBulk)
        && (p.reqType == MultiBulk && p.multibulkLen == 0 ==> p.query != "" && p.query[0] == '*'))
  }

  // ----- one multi-bulk request -----

  /** The outcome of reading a line header: not complete yet, refused, or the
      state and position after it. */
  datatype Header = Wait | Refuse(p: Parser) | Done(p: Parser, pos: nat)

  /** The line that gives the number of arguments. */
  ghost function CountHeader(p: Parser): (h: Header)
    requires Valid(p) && !p.closing && p.reqType == MultiBulk && p.multibulkLen == 0
    ensures h.Done? ==> 2 <= h.pos <= |p.query| && h.p == p.(multibulkLen := h.p.multibulkLen)
    ensures h.Refuse? ==> h.p.closing
  {
    match StrChr(p.query, 0, '\r')
    case None =>
      if |p.query| > INLINE_MAX_LEN then Refuse(Fail(p, TooBigCount, 0)) else Wait
    case Some(newline) =>
      if newline > |p.query| - 2 then Wait
      else
        var ll := Reads(p.query[1..newline]);
        if ll == None || ll.value > MAX_ARGS then Refuse(Fail(p, BadMultiBulkLength, 0))
        else Done(p.(multibulkLen := if ll.value <= 0 then 0 else ll.value), newline + 2)
  }

  /** The line that gives the length of the next argument; a big one makes the
      parser cut the buffer so that the argument starts it. */
  ghost function BulkHeader(p: Parser, pos: nat): (h: Header)
    requires pos <= |p.query|
    ensures h.Done? ==>
      && h.p == p.(bulkLen := h.p.bulkLen, query := h.p.query)
      && 0 <= h.p.bulkLen <= MAX_BULK
      && h.pos <= |h.p.query| && |h.p.query| - h.pos < |p.query| - pos
    ensures h.Refuse? ==> h.p.closing
  {
    match StrChr(p.query, pos, '\r')
    case None =>
      if |p.query| > INLINE_MAX_LEN then Refuse(Fail(p, TooBigBulkCount, 0)) else Wait
    case Some(newline) =>
      if newline > |p.query| - 2 then Wait
      else if p.query[pos] != '$' then Refuse(Fail(p, ExpectedDollar(p.query[pos]), pos))
      else
        var ll := Reads(p.query[pos + 1..newline]);
        if ll == None || ll.value < 0 || ll.value > MAX_BULK then Refuse(Fail(p, BadBulkLength, pos))
        else if ll.value >= MBULK_BIG_ARG then
          Done(p.(bulkLen := ll.value, query := p.query[newline + 2..]), 0)
        else
          Done(p.(bulkLen := ll.value), newline + 2)
  }

  /** The bytes of the next argument, all of which are in the buffer: either the
      buffer itself becomes the argument or its bytes are copied. */
  ghost function TakeBulk(p: Parser, pos: nat): (r: (Parser, nat))
    requires 0 <= p.bulkLen && pos + p.bulkLen + 2 <= |p.query| && p.multibulkLen > 0
    ensures r.1 <= |r.0.query| && |r.0.query| - r.1 == |p.query| - pos - (p.bulkLen + 2)
    ensures r.0.argv == p.argv + [p.query[pos..pos + p.bulkLen]]
    ensures r.0.query[r.1..] == p.query[pos + p.bulkLen + 2..]
    ensures r.0 == p.(argv := r.0.argv, query := r.0.query, bulkLen := -1, multibulkLen := p.multibulkLen - 1)
  {
    var p' := p.(bulkLen := -1, multibulkLen := p.multibulkLen - 1);
    if pos == 0 && p.bulkLen >= MBULK_BIG_ARG && |p.query| == p.bulkLen + 2 then
      (p'.(argv := p.argv + [p.query[..|p.query| - 2]], query := ""), 0)
    else
      (p'.(argv := p.argv + [p.query[pos..pos + p.bulkLen]]), pos + p.bulkLen + 2)
  }

  /** The loop over the arguments, then the trim of the buffer to pos; true when
      the whole command has been read. */
  ghost function Arguments(p: Parser, pos: nat): (r: (Parser, bool))
    requires pos <= |p.query| && -1 <= p.bulkLen <= MAX_BULK
    ensures r.1 ==> r.0.multibulkLen == 0 && r.0.bulkLen <= MAX_BULK
    ensures r.1 ==> |r.0.query| <= |p.query| - pos
    ensures r.1 && p.multibulkLen > 0 ==> |r.0.query| < |p.query| - pos
    ensures r.0.closing == p.closing || (r.0.closing && !r.1)
    decreases p.multibulkLen, p.bulkLen == -1
  {
    if p.multibulkLen == 0 then (p.(query := p.query[pos..]), true)
    else if p.bulkLen == -1 then
      match BulkHeader(p, pos)
      case Wait => (p.(query := p.query[pos..]), false)
      case Refuse(p') => (p', false)
      case Done(p', pos') => Arguments(p', pos')
    else if |p.query| - pos < p.bulkLen + 2 then (p.(query := p.query[pos..]), false)
    else
      var (p', pos') := TakeBulk(p, pos);
      Arguments(p', pos')
  }

  ghost function MultiBulkInput(p: Parser): (r: (Parser, bool))
    requires Valid(p) && !p.closing && p.reqType == MultiBulk
    ensures r.1 ==> |r.0.query| < |p.query|
  {
    if p.multibulkLen == 0 then
      match CountHeader(p)
      case Wait => (p, false)
      case Refuse(p') => (p', false)
      case Done(p', pos) => Arguments(p', pos)
    else Arguments(p, 0)
  }

  // ----- one inline request -----

  function NonEmpty(args: seq<string>): seq<string> {
    if args == [] then []
    else (if args[0] == "" then [] else [args[0]]) + NonEmpty(args[1..])
  }

  ghost function InlineInput(p: Parser): (r: (Parser, bool))
    requires p.query != ""
    ensures r.1 ==> |r.0.query| < |p.query|
  {
    match StrChr(p.query, 0, '\n')
    case None =>
      if |p.query| > INLINE_MAX_LEN then (p.(errors := p.errors + [TooBigInline]), false) else (p, false)
    case Some(newline) =>
      var querylen := if newline > 0 && p.query[newline - 1] == '\r' then newline - 1 else newline;
      match QuotedArgs.Args(p.query[..querylen])
      case None => (Fail(p, UnbalancedQuotes, 0), false)
      case Some(argv) => (p.(query := Range(p.query, querylen + 2), argv := NonEmpty(argv)), true)
  }

  // ----- the loop over requests -----

  predicate IsQuit(argv: Command)
    requires argv != []
  {
    Lower(CString(argv[0])) == "quit"
  }

  function Reset(p: Parser): Parser {
    p.(reqType := Unknown, multibulkLen := 0, bulkLen := -1, argv := [])
  }

  /** Run the command read, if any, and get ready for the next. */
  function Dispatch(p: Parser): Parser {
    if p.argv == [] then Reset(p)
    else if IsQuit(p.argv) then p.(closing := true)
    else Reset(p.(dispatched := p.dispatched + [p.argv]))
  }

  function Typed(p: Parser): Parser
    requires p.query != ""
  {
    if p.reqType != Unknown then p
    else p.(reqType := if p.query[0] == '*' then MultiBulk else Inline)
  }

  ghost function OneRequest(p: Parser): (r: (Parser, bool))
    requires Valid(p) && p.query != "" && !p.closing
    ensures r.1 ==> |r.0.query| < |p.query|
  {
    var t := Typed(p);
    if t.reqType == Inline then InlineInput(t) else MultiBulkInput(t)
  }

  ghost function UserInput(p: Parser): (r: Parser)
    requires Valid(p)
    ensures Valid(r)
    decreases |p.query|
  {
    if p.query == "" || p.closing then p
    else
      RequestKeepsValid(p);
      var (p', ok) := OneRequest(p);
      if ok then UserInput(Dispatch(p')) else p'
  }

  lemma {:induction false} ArgumentsKeepValid(p: Parser, pos: nat)
    requires pos <= |p.query| && -1 <= p.bulkLen <= MAX_BULK && !p.closing
    requires p.reqType == MultiBulk && (p.multibulkLen == 0 ==> p.bulkLen == -1)
    ensures var (p', ok) := Arguments(p, pos);
      && -1 <= p'.bulkLen <= MAX_BULK
      && (ok ==> !p'.closing && p'.bulkLen == -1)
      && (!ok && !p'.closing ==> p'.multibulkLen > 0 && p'.reqType == MultiBulk)
    decreases p.multibulkLen, p.bulkLen == -1
  {
    if p.multibulkLen == 0 {
    } else if p.bulkLen == -1 {
      match BulkHeader(p, pos)
      case Wait =>
      case Refuse(p') =>
      case Done(p', pos') => ArgumentsKeepValid(p', pos');
    } else if |p.query| - pos < p.bulkLen + 2 {
    } else {
      var (p', pos') := TakeBulk(p, pos);
      ArgumentsKeepValid(p', pos');
    }
  }

  lemma RequestKeepsValid(p: Parser)
    requires Valid(p) && p.query != "" && !p.closing
    ensures var (p', ok) := OneRequest(p);
      Valid(if ok then Dispatch(p') else p')
  {
    hide StrChr, Reads, Arguments, QuotedArgs.Args, NonEmpty, Lower, CString;
    var t := Typed(p);
    if t.reqType == MultiBulk {
      if t.multibulkLen == 0 {
        match CountHeader(t)
        case Wait =>
        case Refuse(_) =>
        case Done(p', pos) => ArgumentsKeepValid(p', pos);
      } else {
        ArgumentsKeepValid(t, 0);
      }
    }
  }
}
