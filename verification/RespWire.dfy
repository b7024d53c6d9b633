/** Requests on the wire: what a client that speaks the Redis protocol sends, and
    the proof that the parser reads it back whatever the read boundaries. */
module RespWire {
  import opened Common
  import opened Decimal
  import opened RespParser
  import QuotedArgs

  // ----- encoding -----

  function Line(prefix: char, n: nat): string {
    [prefix] + Digits(n) + "\r\n"
  }

  function Bulk(arg: string): string {
    Line('$', |arg|) + arg + "\r\n"
  }

  function Bulks(args: seq<string>): string {
    if args == [] then "" else Bulk(args[0]) + Bulks(args[1..])
  }

  function EncodeCommand(cmd: Command): string {
    Line('*', |cmd|) + Bulks(cmd)
  }

  function Encode(cmds: seq<Command>): string {
    if cmds == [] then "" else EncodeCommand(cmds[0]) + Encode(cmds[1..])
  }

  /** The commands a client may send: within the parser's count and length
      limits, and not QUIT, which closes the connection. */
  predicate Fits(cmd: Command) {
    && 1 <= |cmd| <= MAX_ARGS
    && (forall i :: 0 <= i < |cmd| ==> |cmd[i]| <= MAX_BULK)
    && !IsQuit(cmd)
  }

  predicate AllFit(cmds: seq<Command>) {
    forall i :: 0 <= i < |cmds| ==> Fits(cmds[i])
  }

  // ----- one line -----

  ghost predicate NoReturn(s: string) {
    forall i :: 0 <= i < |s| ==> s[i] != '\r' && s[i] != '\0'
  }

  lemma {:induction false} StrChrSkips(s: string, pos: nat, end: nat)
    requires pos <= end <= |s|
    requires NoReturn(s[pos..end])
    ensures StrChr(s, pos, '\r') == StrChr(s, end, '\r')
    decreases end - pos
  {
    if pos < end {
      assert s[pos] == s[pos..end][0];
      assert s[pos + 1..end] == s[pos..end][1..];
      StrChrSkips(s, pos + 1, end);
    }
  }

  lemma LineHasNoReturn(prefix: char, n: nat)
    requires prefix != '\r' && prefix != '\0'
    ensures NoReturn([prefix] + Digits(n))
  {
    DigitsDenote(n);
  }

  /** A line that has arrived completely is found and read; one that has not is
      recognised as incomplete. */
  lemma LineRead(s: string, pos: nat, rest: string, prefix: char, n: nat, tail: string)
    requires pos <= |s| && s[pos..] + rest == Line(prefix, n) + tail
    requires prefix != '\r' && prefix != '\0' && n <= LLONG_MAX
    ensures |s| - pos >= |Line(prefix, n)| ==>
      var newline := pos + |Line(prefix, n)| - 2;
      && StrChr(s, pos, '\r') == Some(newline) && newline <= |s| - 2
      && s[pos] == prefix && Reads(s[pos + 1..newline]) == Some(n)
      && s[newline + 2..] + rest == tail
    ensures |s| - pos < |Line(prefix, n)| ==>
      StrChr(s, pos, '\r') == None || StrChr(s, pos, '\r').value > |s| - 2
  {
    hide Digits, Line, StrChr, Reads;
    if |s| - pos >= |Line(prefix, n)| {
      LineComplete(s, pos, rest, prefix, n, tail);
    } else {
      LineIncomplete(s, pos, rest, prefix, n, tail);
    }
  }

  lemma LineComplete(s: string, pos: nat, rest: string, prefix: char, n: nat, tail: string)
    requires pos <= |s| && s[pos..] + rest == Line(prefix, n) + tail && |s| - pos >= |Line(prefix, n)|
    requires prefix != '\r' && prefix != '\0' && n <= LLONG_MAX
    ensures var newline := pos + |Line(prefix, n)| - 2;
      && StrChr(s, pos, '\r') == Some(newline) && newline <= |s| - 2
      && s[pos] == prefix && Reads(s[pos + 1..newline]) == Some(n)
      && s[newline + 2..] + rest == tail
  {
    hide Digits, Reads;
    var line, body := Line(prefix, n), [prefix] + Digits(n);
    var w := s[pos..] + rest;
    LineHasNoReturn(prefix, n);
    var newline := pos + |body|;
    assert w[..|body|] == body;
    assert s[pos..newline] == w[..|body|];
    StrChrSkips(s, pos, newline);
    assert s[newline] == w[|body|] == '\r';
    assert s[pos] == w[0];
    assert s[pos + 1..newline] == body[1..] == Text(n);
    assert s[newline + 2..] + rest == w[|line|..];
  }

  lemma LineIncomplete(s: string, pos: nat, rest: string, prefix: char, n: nat, tail: string)
    requires pos <= |s| && s[pos..] + rest == Line(prefix, n) + tail && |s| - pos < |Line(prefix, n)|
    requires prefix != '\r' && prefix != '\0'
    ensures StrChr(s, pos, '\r') == None || StrChr(s, pos, '\r').value > |s| - 2
  {
    hide Digits;
    var body := [prefix] + Digits(n);
    var w := s[pos..] + rest;
    LineHasNoReturn(prefix, n);
    assert w[..|body|] == body;
    var end := if |s| - pos <= |body| then |s| else pos + |body|;
    assert s[pos..end] == body[..end - pos];
    StrChrSkips(s, pos, end);
  }

  lemma LineLength(prefix: char, n: nat)
    requires n < 10000000000
    ensures 4 <= |Line(prefix, n)| <= 13
  {
    DigitsBound(n);
    assert Pow10(10) == 10000000000;
    if |Digits(n)| > 10 {
      Pow10Grows(10, |Digits(n)| - 1);
    }
  }

  // ----- the parser on the wire -----

  /** The bytes still to come for the arguments `left`, the first of which has
      had its length read when bulkLen is not -1. */
  function Wire(bulkLen: int, left: seq<string>): string
    requires bulkLen != -1 ==> left != []
  {
    if bulkLen == -1 then Bulks(left) else left[0] + "\r\n" + Bulks(left[1..])
  }

  ghost predicate ArgsFit(args: seq<string>) {
    |args| <= MAX_ARGS && forall i :: 0 <= i < |args| ==> |args[i]| <= MAX_BULK
  }

  /** An argument that the query buffer can hold. */
  predicate Deliverable(arg: string) {
    |arg| + 2 <= QUERY_MAX_LEN
  }

  predicate AllDeliverable(args: seq<string>) {
    forall i :: 0 <= i < |args| ==> Deliverable(args[i])
  }

  const SMALL: nat := 3 * 16 * 1024

  /** The buffer is far from the limits, or holds no more than one big argument. */
  ghost predicate Bounded(p: Parser, pos: nat) {
    || |p.query| <= SMALL
    || (pos == 0 && p.bulkLen >= MBULK_BIG_ARG && |p.query| <= p.bulkLen + 2)
  }

  /** In the middle of a command: the arguments `left` are still to be read, and
      the unread part of the buffer and the bytes not yet received spell them,
      followed by `tail`. */
  ghost predicate Reading(p: Parser, pos: nat, left: seq<string>, rest: string, tail: string) {
    && pos <= |p.query| && !p.closing && p.reqType == MultiBulk
    && p.multibulkLen == |left| && ArgsFit(left)
    && (p.bulkLen == -1 || (left != [] && p.bulkLen == |left[0]|))
    && p.query[pos..] + rest == Wire(p.bulkLen, left) + tail
  }

  /** The length of the next thing that has to be in the buffer as a whole. */
  function Need(bulkLen: int, left: seq<string>): int
    requires left != []
  {
    if bulkLen == -1 then |Line('$', |left[0]|)| else bulkLen + 2
  }

  lemma HeaderComplete(p: Parser, pos: nat, left: seq<string>, rest: string, tail: string)
    requires Reading(p, pos, left, rest, tail) && left != [] && p.bulkLen == -1
    requires |p.query| - pos >= |Line('$', |left[0]|)|
    ensures var h := BulkHeader(p, pos);
      && h.Done? && h.p.bulkLen == |left[0]|
      && h.p == p.(bulkLen := h.p.bulkLen, query := h.p.query)
      && Reading(h.p, h.pos, left, rest, tail) && (Bounded(p, pos) ==> Bounded(h.p, h.pos))
      && |h.p.query| <= |p.query|
  {
    hide Digits, StrChr, Reads;
    var after := left[0] + "\r\n" + Bulks(left[1..]) + tail;
    assert Wire(-1, left) + tail == Line('$', |left[0]|) + after;
    LineRead(p.query, pos, rest, '$', |left[0]|, after);
  }

  lemma HeaderIncomplete(p: Parser, pos: nat, left: seq<string>, rest: string, tail: string)
    requires Reading(p, pos, left, rest, tail) && Bounded(p, pos) && left != [] && p.bulkLen == -1
    requires |p.query| - pos < |Line('$', |left[0]|)|
    ensures BulkHeader(p, pos) == Wait
  {
    hide Digits, StrChr, Reads;
    var after := left[0] + "\r\n" + Bulks(left[1..]) + tail;
    assert Wire(-1, left) + tail == Line('$', |left[0]|) + after;
    LineRead(p.query, pos, rest, '$', |left[0]|, after);
  }

  lemma BulkTaken(p: Parser, pos: nat, left: seq<string>, rest: string, tail: string)
    requires Reading(p, pos, left, rest, tail) && left != [] && p.bulkLen != -1
    requires |p.query| - pos >= p.bulkLen + 2
    ensures var (p', pos') := TakeBulk(p, pos);
      && p'.argv == p.argv + [left[0]] && p' == p.(argv := p'.argv, query := p'.query, bulkLen := -1, multibulkLen := p'.multibulkLen)
      && (|p.query| <= QUERY_MAX_LEN ==> Deliverable(left[0]))
      && Reading(p', pos', left[1..], rest, tail) && (Bounded(p, pos) ==> Bounded(p', pos'))
      && |p'.query| <= |p.query|
  {
    hide TakeBulk, Bulks, Wire, Bounded, ArgsFit;
    var arg := left[0];
    ArgsFitLess(left);
    WireOfArgument(left, tail);
    TakenBytes(p.query, pos, arg, rest, Bulks(left[1..]) + tail);
    TakingKeepsBounded(p, pos);
  }

  lemma ArgsFitLess(args: seq<string>)
    requires ArgsFit(args) && args != []
    ensures ArgsFit(args[1..]) && |args[0]| <= MAX_BULK
  {
  }

  lemma WireOfArgument(left: seq<string>, tail: string)
    requires left != []
    ensures Wire(|left[0]|, left) + tail == left[0] + "\r\n" + (Bulks(left[1..]) + tail)
    ensures Wire(-1, left[1..]) + tail == Bulks(left[1..]) + tail
  {
    hide Bulks;
  }

  /** The bytes of an argument, and those after its CRLF. */
  lemma TakenBytes(query: string, pos: nat, arg: string, rest: string, after: string)
    requires pos <= |query| && query[pos..] + rest == arg + "\r\n" + after && |query| - pos >= |arg| + 2
    ensures query[pos..pos + |arg|] == arg && query[pos + |arg| + 2..] + rest == after
  {
    var w := query[pos..] + rest;
    assert query[pos..pos + |arg|] == w[..|arg|] == arg;
    assert query[pos + |arg| + 2..] + rest == w[|arg| + 2..] == after;
  }

  lemma TakingKeepsBounded(p: Parser, pos: nat)
    requires 0 <= p.bulkLen && pos + p.bulkLen + 2 <= |p.query| && p.multibulkLen > 0
    ensures var (p', pos') := TakeBulk(p, pos);
      (Bounded(p, pos) ==> Bounded(p', pos')) && |p'.query| <= |p.query|
  {
  }

  /** What the argument loop has done: it has taken the arguments in the buffer,
      and either completed the command, leaving exactly what follows it, or
      stopped for lack of bytes. */
  ghost predicate TookArguments(p: Parser, left: seq<string>, rest: string, tail: string, p': Parser, ok: bool) {
    && p'.dispatched == p.dispatched && p'.errors == p.errors && !p'.closing && p'.reqType == MultiBulk
    && p'.multibulkLen <= |left|
    && var left' := left[|left| - p'.multibulkLen..];
       && p'.argv + left' == p.argv + left
       && AllDeliverable(left[..|left| - p'.multibulkLen])
       && Reading(p', 0, left', rest, tail)
       && (ok <==> left' == []) && (ok ==> p'.bulkLen == -1 && |p'.query| <= SMALL)
       && (!ok ==> |p'.query| < Need(p'.bulkLen, left') && Bounded(p', 0))
  }

  lemma {:induction false} ArgumentsRead(p: Parser, pos: nat, left: seq<string>, rest: string, tail: string)
    requires Reading(p, pos, left, rest, tail) && Bounded(p, pos) && |p.query| <= QUERY_MAX_LEN
    ensures var (p', ok) := Arguments(p, pos); TookArguments(p, left, rest, tail, p', ok)
    decreases |left|, p.bulkLen == -1
  {
    hide Wire, TakeBulk, BulkHeader, TookArguments, Bounded, ArgsFit, Line;
    if left == [] || |p.query| - pos < Need(p.bulkLen, left) {
      ArgumentsStop(p, pos, left, rest, tail);
    } else if p.bulkLen == -1 {
      HeaderComplete(p, pos, left, rest, tail);
      var h := BulkHeader(p, pos);
      ArgumentsRead(h.p, h.pos, left, rest, tail);
      TookAfterHeader(p, h.p, left, rest, tail, Arguments(h.p, h.pos).0, Arguments(h.p, h.pos).1);
    } else {
      BulkTaken(p, pos, left, rest, tail);
      var (p1, pos1) := TakeBulk(p, pos);
      ArgumentsRead(p1, pos1, left[1..], rest, tail);
      TookAfterBulk(p, p1, left, rest, tail, Arguments(p1, pos1).0, Arguments(p1, pos1).1);
    }
  }

  lemma ArgumentsStop(p: Parser, pos: nat, left: seq<string>, rest: string, tail: string)
    requires Reading(p, pos, left, rest, tail) && Bounded(p, pos)
    requires left == [] || |p.query| - pos < Need(p.bulkLen, left)
    ensures var (p', ok) := Arguments(p, pos); TookArguments(p, left, rest, tail, p', ok)
  {
    hide Wire, TakeBulk, BulkHeader, ArgsFit, Line;
    assert p.query[pos..][0..] == p.query[pos..];
    if left != [] && p.bulkLen == -1 {
      HeaderIncomplete(p, pos, left, rest, tail);
      ArgsFitLess(left);
      LineLength('$', |left[0]|);
    }
  }

  lemma TookAfterHeader(p: Parser, p1: Parser, left: seq<string>, rest: string, tail: string, p': Parser, ok: bool)
    requires TookArguments(p1, left, rest, tail, p', ok)
    requires p1 == p.(bulkLen := p1.bulkLen, query := p1.query)
    ensures TookArguments(p, left, rest, tail, p', ok)
  {
    hide Reading, Bounded, AllDeliverable;
  }

  lemma TookAfterBulk(p: Parser, p1: Parser, left: seq<string>, rest: string, tail: string, p': Parser, ok: bool)
    requires left != [] && TookArguments(p1, left[1..], rest, tail, p', ok) && Deliverable(left[0])
    requires p1 == p.(argv := p.argv + [left[0]], query := p1.query, bulkLen := p1.bulkLen,
                      multibulkLen := p1.multibulkLen)
    ensures TookArguments(p, left, rest, tail, p', ok)
  {
    hide Reading, Bounded, Deliverable, Need;
    PastFirst(p.argv, left, p'.multibulkLen);
    DeliverableJoin([left[0]], left[1..][..|left[1..]| - p'.multibulkLen]);
  }

  lemma PastFirst(argv: seq<string>, left: seq<string>, m: nat)
    requires m < |left|
    ensures left[1..][|left[1..]| - m..] == left[|left| - m..]
    ensures left[..|left| - m] == [left[0]] + left[1..][..|left[1..]| - m]
    ensures argv + [left[0]] + left[1..] == argv + left
  {
  }

  /** Where a client that is being sent `cmds` stands: the commands dispatched are
      a prefix of them, and the buffer and the bytes not yet received spell what
      is left of the next one and all that follow. */
  ghost predicate OnTrack(p: Parser, rest: string, cmds: seq<Command>) {
    var k := |p.dispatched|;
    && k <= |cmds| && p.dispatched == cmds[..k] && AllFit(cmds)
    && p.errors == [] && !p.closing && p.reqType != Inline
    && (forall i :: 0 <= i < k ==> AllDeliverable(cmds[i])) && AllDeliverable(p.argv)
    && if p.multibulkLen == 0
       then p.argv == [] && p.bulkLen == -1 && p.query + rest == Encode(cmds[k..])
            && (p.query != "" && p.reqType == MultiBulk ==> p.query[0] == '*')
            && (p.query == "" ==> p.reqType == Unknown)
       else k < |cmds|
            && p.multibulkLen <= |cmds[k]|
            && p.argv == cmds[k][..|cmds[k]| - p.multibulkLen]
            && Reading(p, 0, Left(p, cmds[k]), rest, Encode(cmds[k + 1..]))
  }

  /** The arguments of the current command that have not been read yet. */
  ghost function Left(p: Parser, cmd: Command): seq<string>
    requires p.multibulkLen <= |cmd|
  {
    cmd[|cmd| - p.multibulkLen..]
  }

  /** The parser has done all it can: the buffer ends inside a line or an
      argument, or is empty between commands. */
  ghost predicate Settled(p: Parser, cmds: seq<Command>) {
    var k := |p.dispatched|;
    && k <= |cmds| && p.multibulkLen <= (if k < |cmds| then |cmds[k]| else 0)
    && if p.multibulkLen == 0
       then |p.query| < if k < |cmds| then |Line('*', |cmds[k]|)| else 1
       else |p.query| < Need(p.bulkLen, Left(p, cmds[k]))
  }

  lemma CountRead(p: Parser, rest: string, cmds: seq<Command>)
    requires OnTrack(p, rest, cmds) && Bounded(p, 0) && Valid(p)
    requires p.multibulkLen == 0 && p.reqType == MultiBulk && |p.dispatched| < |cmds|
    ensures var cmd := cmds[|p.dispatched|]; var tail := Encode(cmds[|p.dispatched| + 1..]);
      if |p.query| < |Line('*', |cmd|)| then CountHeader(p) == Wait
      else
        var h := CountHeader(p);
        && h.Done? && h.p == p.(multibulkLen := |cmd|)
        && Reading(h.p, h.pos, cmd, rest, tail) && Bounded(h.p, h.pos)
  {
    hide Digits, StrChr, Reads;
    var k := |p.dispatched|;
    var cmd := cmds[k];
    var tail := Encode(cmds[k + 1..]);
    assert Fits(cmd);
    assert cmds[k..][0] == cmd && cmds[k..][1..] == cmds[k + 1..];
    assert Encode(cmds[k..]) == Line('*', |cmd|) + (Bulks(cmd) + tail);
    assert p.query[0..] == p.query;
    LineRead(p.query, 0, rest, '*', |cmd|, Bulks(cmd) + tail);
  }

  /** The part of OnTrack that does not depend on the buffer. */
  ghost predicate Progress(p: Parser, cmds: seq<Command>) {
    var k := |p.dispatched|;
    && k <= |cmds| && p.dispatched == cmds[..k] && AllFit(cmds) && p.errors == []
    && (forall i :: 0 <= i < k ==> AllDeliverable(cmds[i])) && AllDeliverable(p.argv)
  }

  lemma DeliverableJoin(a: seq<string>, b: seq<string>)
    requires AllDeliverable(a) && AllDeliverable(b)
    ensures AllDeliverable(a + b)
  {
  }

  lemma LeftShrinks(p: Parser, p': Parser, cmd: Command)
    requires p'.multibulkLen <= p.multibulkLen <= |cmd|
    requires p.argv == cmd[..|cmd| - p.multibulkLen]
    requires p'.argv + Left(p, cmd)[p.multibulkLen - p'.multibulkLen..] == p.argv + Left(p, cmd)
    ensures Left(p', cmd) == Left(p, cmd)[p.multibulkLen - p'.multibulkLen..]
    ensures p'.argv == cmd[..|cmd| - p'.multibulkLen]
    ensures p'.argv == p.argv + Left(p, cmd)[..p.multibulkLen - p'.multibulkLen]
  {
    var n := p.multibulkLen - p'.multibulkLen;
    assert p.argv + Left(p, cmd) == cmd;
    assert Left(p, cmd) == Left(p, cmd)[..n] + Left(p, cmd)[n..];
    assert p'.argv + Left(p, cmd)[n..] == cmd;
    assert cmd[..|cmd| - p'.multibulkLen] == p'.argv;
    assert p.argv + Left(p, cmd)[..n] == cmd[..|p.argv| + n];
  }

  lemma CommandArguments(p: Parser, pos: nat, rest: string, cmd: Command, tail: string)
    requires p.multibulkLen <= |cmd| && p.argv == cmd[..|cmd| - p.multibulkLen]
    requires AllDeliverable(p.argv)
    requires Reading(p, pos, Left(p, cmd), rest, tail) && Bounded(p, pos) && |p.query| <= QUERY_MAX_LEN
    ensures pos <= |p.query| && -1 <= p.bulkLen <= MAX_BULK
    ensures var (p', ok) := Arguments(p, pos);
      && p'.dispatched == p.dispatched && p'.errors == p.errors && !p'.closing && p'.reqType == MultiBulk
      && p'.multibulkLen <= |cmd| && p'.argv == cmd[..|cmd| - p'.multibulkLen] && AllDeliverable(p'.argv)
      && if ok then p'.argv == cmd && p'.query + rest == tail && |p'.query| <= SMALL
         else p'.multibulkLen > 0 && Reading(p', 0, Left(p', cmd), rest, tail)
              && |p'.query| < Need(p'.bulkLen, Left(p', cmd)) && Bounded(p', 0)
  {
    hide Arguments, Wire, Reading, Bounded, Need, AllDeliverable;
    var left := Left(p, cmd);
    ReadingOpen(p, pos, left, rest, tail);
    var (p', ok) := Arguments(p, pos);
    ArgumentsRead(p, pos, left, rest, tail);
    LeftShrinks(p, p', cmd);
    DeliverableJoin(p.argv, left[..|left| - p'.multibulkLen]);
    if ok {
      ReadingDone(p', rest, tail);
    }
  }

  /** The argument loop, seen from the list of commands. */
  lemma CommandRead(p: Parser, pos: nat, rest: string, cmds: seq<Command>)
    requires Progress(p, cmds) && |p.dispatched| < |cmds|
    requires p.multibulkLen <= |cmds[|p.dispatched|]|
    requires p.argv == cmds[|p.dispatched|][..|cmds[|p.dispatched|]| - p.multibulkLen]
    requires Reading(p, pos, Left(p, cmds[|p.dispatched|]), rest, Encode(cmds[|p.dispatched| + 1..]))
    requires Bounded(p, pos) && |p.query| <= QUERY_MAX_LEN
    ensures var (p', ok) := Arguments(p, pos);
      if ok then OnTrack(Dispatch(p'), rest, cmds) && Bounded(Dispatch(p'), 0)
      else OnTrack(p', rest, cmds) && Settled(p', cmds) && Bounded(p', 0)
  {
    hide Arguments, Encode, Wire, IsQuit, Reading, Bounded, Fits, Dispatch, Need, OnTrack, Settled, AllDeliverable, Left;
    var k := |p.dispatched|;
    CommandArguments(p, pos, rest, cmds[k], Encode(cmds[k + 1..]));
    var (p', ok) := Arguments(p, pos);
    if ok {
      CommandDone(p', rest, cmds);
    } else {
      CommandOpen(p', rest, cmds);
    }
  }

  lemma CommandOpen(p: Parser, rest: string, cmds: seq<Command>)
    requires Progress(p, cmds) && |p.dispatched| < |cmds| && !p.closing && p.reqType == MultiBulk
    requires 0 < p.multibulkLen <= |cmds[|p.dispatched|]|
    requires p.argv == cmds[|p.dispatched|][..|cmds[|p.dispatched|]| - p.multibulkLen]
    requires Reading(p, 0, Left(p, cmds[|p.dispatched|]), rest, Encode(cmds[|p.dispatched| + 1..]))
    requires |p.query| < Need(p.bulkLen, Left(p, cmds[|p.dispatched|]))
    ensures OnTrack(p, rest, cmds) && Settled(p, cmds)
  {
    hide Encode, Reading, Fits, AllDeliverable, Need;
  }

  lemma ReadingOpen(p: Parser, pos: nat, left: seq<string>, rest: string, tail: string)
    requires Reading(p, pos, left, rest, tail)
    ensures pos <= |p.query| && -1 <= p.bulkLen <= MAX_BULK
    ensures !p.closing && p.reqType == MultiBulk && p.multibulkLen == |left|
  {
  }

  lemma ReadingDone(p: Parser, rest: string, tail: string)
    requires Reading(p, 0, [], rest, tail) && p.bulkLen == -1
    ensures p.query + rest == tail
  {
    assert p.query[0..] == p.query;
    assert Wire(-1, []) + tail == tail;
  }

  lemma CommandDone(p: Parser, rest: string, cmds: seq<Command>)
    requires Progress(p, cmds) && |p.dispatched| < |cmds| && p.argv == cmds[|p.dispatched|]
    requires !p.closing
    requires p.query + rest == Encode(cmds[|p.dispatched| + 1..])
    ensures OnTrack(Dispatch(p), rest, cmds)
    ensures Dispatch(p).query == p.query
    ensures |p.query| <= SMALL ==> Bounded(Dispatch(p), 0)
  {
    hide Encode, IsQuit;
    var k := |p.dispatched|;
    assert Fits(cmds[k]);
    assert cmds[..k + 1] == cmds[..k] + [cmds[k]];
  }

  /** One request on a well-formed stream: it is dispatched, or the parser waits
      for more bytes; no error branch is taken. */
  lemma RequestOnTrack(p: Parser, rest: string, cmds: seq<Command>)
    requires Valid(p) && OnTrack(p, rest, cmds) && Bounded(p, 0) && |p.query| <= QUERY_MAX_LEN
    requires p.query != ""
    ensures var (p', ok) := OneRequest(p);
      if ok then OnTrack(Dispatch(p'), rest, cmds) && Bounded(Dispatch(p'), 0)
      else OnTrack(p', rest, cmds) && Settled(p', cmds) && Bounded(p', 0)
  {
    hide Arguments, Wire, IsQuit, CountHeader, Encode, Bulks, Fits, Dispatch, Need, AllDeliverable, Bounded, Digits;
    var k := |p.dispatched|;
    var t := Typed(p);
    BoundedIgnoresType(p);
    if p.multibulkLen > 0 {
      CommandRead(p, 0, rest, cmds);
    } else {
      StartsWithStar(p, rest, cmds);
      CountRead(t, rest, cmds);
      if |p.query| >= |Line('*', |cmds[k]|)| {
        var h := CountHeader(t);
        assert Left(h.p, cmds[k]) == cmds[k];
        CommandRead(h.p, h.pos, rest, cmds);
      }
    }
  }

  lemma BoundedIgnoresType(p: Parser)
    requires p.query != ""
    ensures Bounded(Typed(p), 0) == Bounded(p, 0)
  {
  }

  lemma StartsWithStar(p: Parser, rest: string, cmds: seq<Command>)
    requires OnTrack(p, rest, cmds) && p.query != "" && p.multibulkLen == 0
    ensures |p.dispatched| < |cmds| && p.query[0] == '*'
    ensures OnTrack(Typed(p), rest, cmds)
  {
    hide IsQuit, Digits;
    assert p.query[0] == (p.query + rest)[0];
  }

  /** One pass over the buffer on a well-formed stream. */
  lemma {:induction false} UserInputOnTrack(p: Parser, rest: string, cmds: seq<Command>)
    requires Valid(p) && OnTrack(p, rest, cmds) && Bounded(p, 0) && |p.query| <= QUERY_MAX_LEN
    ensures var p' := UserInput(p);
      OnTrack(p', rest, cmds) && Settled(p', cmds) && Bounded(p', 0)
    decreases |p.query|
  {
    hide OnTrack, OneRequest, Bounded, Dispatch;
    if p.query == "" {
      EmptyIsSettled(p, rest, cmds);
    } else {
      assert !p.closing by { OpenOnTrack(p, rest, cmds); }
      RequestOnTrack(p, rest, cmds);
      RequestKeepsValid(p);
      var (p', ok) := OneRequest(p);
      if ok {
        assert |Dispatch(p').query| == |p'.query| by { DispatchKeepsQuery(p'); }
        UserInputOnTrack(Dispatch(p'), rest, cmds);
      }
    }
  }

  lemma OpenOnTrack(p: Parser, rest: string, cmds: seq<Command>)
    requires OnTrack(p, rest, cmds)
    ensures !p.closing
  {
  }

  lemma DispatchKeepsQuery(p: Parser)
    ensures Dispatch(p).query == p.query
  {
  }

  lemma EmptyIsSettled(p: Parser, rest: string, cmds: seq<Command>)
    requires OnTrack(p, rest, cmds) && p.query == ""
    ensures Settled(p, cmds)
  {
  }

  // ----- a whole request in the buffer -----

  lemma {:induction false} ArgumentsWhole(p: Parser, pos: nat, left: seq<string>, tail: string)
    requires Reading(p, pos, left, "", tail)
    requires left == [] ==> p.bulkLen == -1
    ensures var (p', ok) := Arguments(p, pos);
      && ok && p' == p.(argv := p.argv + left, query := tail, bulkLen := -1, multibulkLen := 0)
    decreases |left|, p.bulkLen == -1
  {
    hide TakeBulk, BulkHeader;
    assert p.query[pos..] + "" == p.query[pos..];
    if left == [] {
      assert Wire(-1, left) + tail == tail;
      assert p.argv + left == p.argv;
    } else if p.bulkLen == -1 {
      HeaderComplete(p, pos, left, "", tail);
      var h := BulkHeader(p, pos);
      ArgumentsWhole(h.p, h.pos, left, tail);
    } else {
      BulkTaken(p, pos, left, "", tail);
      var (p1, pos1) := TakeBulk(p, pos);
      ArgumentsWhole(p1, pos1, left[1..], tail);
      assert p.argv + [left[0]] + left[1..] == p.argv + left;
    }
  }

  /** A request of any length within the limits that is in the buffer as a whole
      is read back, leaving what follows it. */
  lemma WholeCommand(p: Parser, cmd: Command, tail: string)
    requires Valid(p) && !p.closing && p.reqType == MultiBulk && p.multibulkLen == 0
    requires ArgsFit(cmd) && p.query == EncodeCommand(cmd) + tail
    ensures MultiBulkInput(p) == (p.(argv := cmd, query := tail), true)
  {
    hide CountHeader, Reading, Arguments, ArgsFit, EncodeCommand;
    CountWhole(p, cmd, tail);
    var h := CountHeader(p);
    ArgumentsWhole(h.p, h.pos, cmd, tail);
    assert p.argv + cmd == cmd;
  }

  lemma CountWhole(p: Parser, cmd: Command, tail: string)
    requires Valid(p) && !p.closing && p.reqType == MultiBulk && p.multibulkLen == 0
    requires ArgsFit(cmd) && p.query == EncodeCommand(cmd) + tail
    ensures var h := CountHeader(p);
      && h.Done? && h.p == p.(multibulkLen := |cmd|) && Reading(h.p, h.pos, cmd, "", tail)
  {
    hide Digits, StrChr, Reads, Bulks;
    assert p.query[0..] + "" == Line('*', |cmd|) + (Bulks(cmd) + tail);
    LineRead(p.query, 0, "", '*', |cmd|, Bulks(cmd) + tail);
    assert Wire(-1, cmd) + tail == Bulks(cmd) + tail;
  }

  // ----- inline requests -----

  lemma {:induction false} FindsLineFeed(s: string, pos: nat, end: nat)
    requires pos <= end < |s| && s[end] == '\n'
    requires forall i :: pos <= i < end ==> s[i] != '\n' && s[i] != '\0'
    ensures StrChr(s, pos, '\n') == Some(end)
    decreases end - pos
  {
    if pos < end {
      FindsLineFeed(s, pos + 1, end);
    }
  }

  /** An inline request ends at CRLF or at a bare LF, but two bytes are always
      dropped after the line: what follows it in the buffer is kept whole if and
      only if the line ended in CRLF or nothing follows. */
  lemma InlineLine(p: Parser, line: string, crlf: bool, rest: string)
    requires p.query == line + (if crlf then "\r\n" else "\n") + rest
    requires forall i :: 0 <= i < |line| ==> line[i] != '\n' && line[i] != '\0'
    requires !crlf && line != "" ==> line[|line| - 1] != '\r'
    requires QuotedArgs.Args(line).Some?
    ensures var (p', ok) := InlineInput(p);
      && ok && p'.argv == NonEmpty(QuotedArgs.Args(line).value)
      && p' == p.(argv := p'.argv, query := p'.query)
      && (p'.query == rest <==> crlf || rest == "")
      && (!crlf && rest != "" ==> p'.query == rest[1..])
  {
    hide QuotedArgs.Args, StrChr, NonEmpty;
    var newline := if crlf then |line| + 1 else |line|;
    assert forall i :: 0 <= i < |line| ==> p.query[i] == line[i];
    FindsLineFeed(p.query, 0, newline);
    assert p.query[..|line|] == line;
    if crlf {
      assert p.query[|line| + 2..] == rest;
    } else if rest != "" {
      assert p.query[|line| + 2..] == rest[1..];
    }
  }

  /** One request that loses a byte of the next: "ping" and "get", each ended by a
      bare LF. */
  lemma BareLineFeedLosesByte(p: Parser)
    requires p.query == "\"ping\"\nget\n"
    ensures InlineInput(p) == (p.(argv := ["ping"], query := "et\n"), true)
  {
    hide InlineInput, QuotedArgs.Args;
    var line := "\"ping\"";
    var args: seq<seq<QuotedArgs.Byte>> := ["ping"];
    QuotedArgs.RoundTrip(args);
    assert QuotedArgs.Join(args) == line;
    var argv: seq<string> := args;
    assert argv[1..] == [] && argv[0] != "";
    assert NonEmpty(argv) == argv;
    assert p.query == line + "\n" + "get\n";
    InlineLine(p, line, false, "get\n");
    assert "get\n"[1..] == "et\n";
  }

  lemma {:induction false} ReprIsPrintable(x: seq<QuotedArgs.Byte>)
    ensures forall i :: 0 <= i < |QuotedArgs.ReprBody(x)| ==> QuotedArgs.IsPrint(QuotedArgs.ReprBody(x)[i])
  {
    if x != [] {
      ReprIsPrintable(x[1..]);
      var e := QuotedArgs.ReprByte(x[0]);
      assert forall i :: 0 <= i < |e| ==> QuotedArgs.IsPrint(e[i]);
    }
  }

  lemma {:induction false} JoinIsPrintable(args: seq<seq<QuotedArgs.Byte>>)
    ensures forall i :: 0 <= i < |QuotedArgs.Join(args)| ==> QuotedArgs.IsPrint(QuotedArgs.Join(args)[i])
  {
    hide QuotedArgs.ReprBody;
    if args != [] {
      ReprIsPrintable(args[0]);
      JoinIsPrintable(args[1..]);
    }
  }

  /** Any list of byte strings, printed as quoted arguments on one CRLF line, is
      read by the inline parser as the list of those that are not empty. */
  lemma InlineReadsBack(p: Parser, args: seq<seq<QuotedArgs.Byte>>, rest: string)
    requires p.query == QuotedArgs.Join(args) + "\r\n" + rest
    ensures InlineInput(p) == (p.(argv := NonEmpty(args), query := rest), true)
  {
    hide QuotedArgs.Args, QuotedArgs.Join, InlineInput;
    JoinIsPrintable(args);
    QuotedArgs.RoundTrip(args);
    InlineLine(p, QuotedArgs.Join(args), true, rest);
  }

  // ----- reading from the socket -----

  /** How many bytes one read may return: a big argument that has been started is
      never read past its end. */
  function ReadLength(p: Parser): int {
    if p.reqType == MultiBulk && p.multibulkLen != 0 && p.bulkLen != -1 && p.bulkLen >= MBULK_BIG_ARG then
      var remaining := p.bulkLen + 2 - |p.query|;
      if remaining < IOBUF_LEN then remaining else IOBUF_LEN
    else IOBUF_LEN
  }

  lemma ReadLengthIsPositive(p: Parser, rest: string, cmds: seq<Command>)
    requires OnTrack(p, rest, cmds) && Settled(p, cmds)
    ensures 1 <= ReadLength(p) <= IOBUF_LEN
  {
    hide Digits, Encode, Wire;
  }

  /** Appending the bytes of one legal read. */
  lemma ChunkOnTrack(p: Parser, rest: string, cmds: seq<Command>, n: nat)
    requires Valid(p) && OnTrack(p, rest, cmds) && Settled(p, cmds)
    requires 0 < n <= |rest| && n <= ReadLength(p)
    ensures var q := p.(query := p.query + rest[..n]);
      Valid(q) && OnTrack(q, rest[n..], cmds) && Bounded(q, 0)
  {
    hide Encode, Wire, Digits, Line;
    var k := |p.dispatched|;
    var q := p.(query := p.query + rest[..n]);
    assert rest == rest[..n] + rest[n..];
    assert q.query + rest[n..] == p.query + rest;
    assert p.query[0..] == p.query && q.query[0..] == q.query;
    if p.multibulkLen == 0 {
      if k < |cmds| {
        assert Fits(cmds[k]);
        LineLength('*', |cmds[k]|);
      }
    } else {
      assert Left(q, cmds[k]) == Left(p, cmds[k]);
      if p.bulkLen == -1 {
        LineLength('$', |Left(p, cmds[k])[0]|);
      }
    }
  }

  /** A buffer over the limit means that the next argument cannot be delivered. */
  lemma OverflowIsUndeliverable(p: Parser, rest: string, cmds: seq<Command>)
    requires OnTrack(p, rest, cmds) && Bounded(p, 0) && |p.query| > QUERY_MAX_LEN
    ensures |p.dispatched| < |cmds| && !AllDeliverable(cmds[|p.dispatched|])
  {
    hide Encode, Wire, Digits, Line;
    var cmd := cmds[|p.dispatched|];
    var i := |cmd| - p.multibulkLen;
    assert Left(p, cmd)[0] == cmd[i];
    assert !Deliverable(cmd[i]);
  }

  /** When every byte has been received and processed, every command has been
      dispatched. */
  lemma NothingLeft(p: Parser, cmds: seq<Command>)
    requires OnTrack(p, "", cmds) && Settled(p, cmds)
    ensures p.dispatched == cmds && p.query == "" && p.errors == []
    ensures forall i :: 0 <= i < |cmds| ==> AllDeliverable(cmds[i])
  {
    hide Digits;
    var k := |p.dispatched|;
    assert p.query + "" == p.query && p.query[0..] == p.query;
  }
}
