/** The parser as the source runs it: loops that update a client's fields. */
module RespClient {
  import opened Common
  import opened Decimal
  import opened RespParser
  import opened RespWire
  import QuotedArgs

  /** What read(2) gives: bytes, at least one; nothing at the end of the file; an
      error that is EAGAIN, or another one. */
  datatype ReadResult = Bytes(chunk: string) | EndOfFile | WouldBlock | Failed

  class Client {
    var reqType: Request
    var multibulkLen: nat
    var bulkLen: int
    var query: string
    var argv: Command
    /** CLIENT_CLOSE_AFTER_REPLY. */
    var closing: bool
    /** The protocol errors replied and the commands run so far. */
    var errors: seq<ProtocolError>
    var dispatched: seq<Command>
    /** Whether the client has been freed. */
    var freed: bool

    ghost function State(): Parser
      reads this
    {
      Parser(reqType, multibulkLen, bulkLen, query, argv, closing, errors, dispatched)
    }

    constructor ()
      ensures State() == FRESH && !freed
    {
      reqType, multibulkLen, bulkLen, query := Unknown, 0, -1, "";
      argv, closing, errors, dispatched, freed := [], false, [], [], false;
    }

    method Trim(start: nat)
      modifies this`query
      ensures query == Range(old(query), start)
    {
      query := if start <= |query| then query[start..] else "";
    }

    method Refuse(e: ProtocolError, pos: nat)
      modifies this`errors, this`closing, this`query
      ensures State() == Fail(old(State()), e, pos)
    {
      errors := errors + [e];
      closing := true;
      Trim(pos);
    }

    static method Find(s: string, pos: nat, c: char) returns (r: Option<nat>)
      requires pos <= |s|
      ensures r == StrChr(s, pos, c)
    {
      var i := pos;
      while i < |s| && s[i] != c
        invariant pos <= i <= |s| && StrChr(s, i, c) == StrChr(s, pos, c)
      {
        if s[i] == '\0' {
          return None;
        }
        i := i + 1;
      }
      r := if i < |s| then Some(i) else None;
    }

    method ProcessMultiBulkInput() returns (ok: bool)
      requires Valid(State()) && !closing && reqType == MultiBulk
      modifies this
      ensures (State(), ok) == MultiBulkInput(old(State()))
      ensures freed == old(freed)
    {
      hide Arguments, StrChr, Reads, BulkHeader, TakeBulk, CountHeader;
      var pos := 0;
      if multibulkLen == 0 {
        var next := ReadCount();
        if next == None {
          return false;
        }
        pos := next.value;
      }
      ok := ReadArguments(pos);
    }

    /** The number of arguments; None when there is nothing more to do now. */
    method ReadCount() returns (next: Option<nat>)
      requires Valid(State()) && !closing && reqType == MultiBulk && multibulkLen == 0
      modifies this
      ensures match CountHeader(old(State()))
              case Wait => next == None && State() == old(State())
              case Refuse(p) => next == None && State() == p
              case Done(p, pos) => next == Some(pos) && State() == p
      ensures freed == old(freed)
    {
      hide StrChr, Reads;
      var newline := Find(query, 0, '\r');
      if newline == None {
        if |query| > INLINE_MAX_LEN {
          Refuse(TooBigCount, 0);
        }
        return None;
      }
      if newline.value > |query| - 2 {
        return None;
      }
      var ll := String2LL(query[1..newline.value]);
      if ll == None || ll.value > MAX_ARGS {
        Refuse(BadMultiBulkLength, 0);
        return None;
      }
      multibulkLen := if ll.value <= 0 then 0 else ll.value;
      next := Some(newline.value + 2);
    }

    /** The loop over the arguments of a command. */
    method ReadArguments(start: nat) returns (ok: bool)
      requires start <= |query| && -1 <= bulkLen <= MAX_BULK
      modifies this
      ensures (State(), ok) == Arguments(old(State()), start)
      ensures freed == old(freed)
    {
      hide StrChr, Reads, BulkHeader, TakeBulk;
      var pos: nat := start;
      while multibulkLen > 0
        invariant pos <= |query| && -1 <= bulkLen <= MAX_BULK
        invariant Arguments(State(), pos) == Arguments(old(State()), start)
        invariant freed == old(freed)
        decreases multibulkLen
      {
        if bulkLen == -1 {
          var next, refused := ReadBulkLength(pos);
          if refused {
            return false;
          }
          if next == None {
            break;
          }
          pos := next.value;
        }
        if |query| - pos < bulkLen + 2 {
          break;
        }
        pos := TakeArgument(pos);
      }
      Trim(pos);
      ok := multibulkLen == 0;
    }

    method ReadBulkLength(pos: nat) returns (next: Option<nat>, refused: bool)
      requires pos <= |query|
      modifies this
      ensures match BulkHeader(old(State()), pos)
              case Wait => !refused && next == None && State() == old(State())
              case Refuse(p) => refused && State() == p
              case Done(p, pos') => !refused && next == Some(pos') && State() == p
      ensures freed == old(freed)
    {
      hide StrChr, Reads;
      next, refused := None, false;
      var newline := Find(query, pos, '\r');
      if newline == None {
        if |query| > INLINE_MAX_LEN {
          Refuse(TooBigBulkCount, 0);
          refused := true;
        }
        return;
      }
      if newline.value > |query| - 2 {
        return;
      }
      if query[pos] != '$' {
        Refuse(ExpectedDollar(query[pos]), pos);
        return None, true;
      }
      var ll := String2LL(query[pos + 1..newline.value]);
      if ll == None || ll.value < 0 || ll.value > MAX_BULK {
        Refuse(BadBulkLength, pos);
        return None, true;
      }
      next := Some(newline.value + 2);
      if ll.value >= MBULK_BIG_ARG {
        Trim(newline.value + 2);
        next := Some(0);
      }
      bulkLen := ll.value;
    }

    /** The argument is the next bulkLen bytes, by either path, and the buffer
        goes on after its CRLF. */
    method TakeArgument(pos: nat) returns (next: nat)
      requires 0 <= bulkLen && pos + bulkLen + 2 <= |query| && multibulkLen > 0
      modifies this
      ensures argv == old(argv) + [old(query)[pos..pos + old(bulkLen)]]
      ensures next <= |query| && query[next..] == old(query)[pos + old(bulkLen) + 2..]
      ensures (State(), next) == TakeBulk(old(State()), pos)
      ensures freed == old(freed)
    {
      if pos == 0 && bulkLen >= MBULK_BIG_ARG && |query| == bulkLen + 2 {
        // The buffer itself becomes the argument.
        argv := argv + [query[..|query| - 2]];
        query := "";
        next := 0;
      } else {
        argv := argv + [query[pos..pos + bulkLen]];
        next := pos + bulkLen + 2;
      }
      bulkLen := -1;
      multibulkLen := multibulkLen - 1;
    }

    method ProcessInlineInput() returns (ok: bool)
      requires query != ""
      modifies this
      ensures (State(), ok) == InlineInput(old(State()))
      ensures freed == old(freed)
    {
      hide StrChr, QuotedArgs.Args;
      var newline := Find(query, 0, '\n');
      if newline == None {
        if |query| > INLINE_MAX_LEN {
          errors := errors + [TooBigInline];
        }
        return false;
      }
      var querylen := newline.value;
      if querylen > 0 && query[querylen - 1] == '\r' {
        querylen := querylen - 1;
      }
      var args := QuotedArgs.SplitArgs(query[..querylen]);
      if args == None {
        Refuse(UnbalancedQuotes, 0);
        return false;
      }
      Trim(querylen + 2);
      KeepNonEmpty(args.value);
      ok := true;
    }

    /** Create an object for every argument that is not empty. */
    method KeepNonEmpty(args: seq<string>)
      modifies this`argv
      ensures argv == NonEmpty(args)
    {
      argv := [];
      var i := 0;
      while i < |args|
        invariant i <= |args|
        invariant argv + NonEmpty(args[i..]) == NonEmpty(args)
      {
        ghost var before := argv;
        assert args[i..][1..] == args[i + 1..];
        if args[i] != "" {
          argv := argv + [args[i]];
        }
        assert argv + NonEmpty(args[i + 1..]) == before + NonEmpty(args[i..]);
        i := i + 1;
      }
      assert args[i..] == [];
    }

    /** cmd_process and the reset after it. */
    method ProcessCommand()
      modifies this
      ensures State() == Dispatch(old(State())) && freed == old(freed)
    {
      if argv != [] && IsQuit(argv) {
        closing := true;
        return;
      }
      if argv != [] {
        dispatched := dispatched + [argv];
      }
      reqType, multibulkLen, bulkLen, argv := Unknown, 0, -1, [];
    }

    method ProcessRequest() returns (ok: bool)
      requires Valid(State()) && query != "" && !closing
      modifies this
      ensures (State(), ok) == OneRequest(old(State()))
      ensures freed == old(freed)
    {
      hide InlineInput, MultiBulkInput;
      if reqType == Unknown {
        reqType := if query[0] == '*' then MultiBulk else Inline;
      }
      if reqType == Inline {
        ok := ProcessInlineInput();
      } else {
        ok := ProcessMultiBulkInput();
      }
    }

    method ProcessUserInput()
      requires Valid(State())
      modifies this
      ensures State() == UserInput(old(State())) && freed == old(freed)
    {
      hide OneRequest, Dispatch, Valid;
      while query != ""
        invariant Valid(State()) && UserInput(State()) == UserInput(old(State()))
        invariant freed == old(freed)
        decreases |query|
      {
        if closing {
          break;
        }
        RequestKeepsValid(State());
        var ok := ProcessRequest();
        if !ok {
          break;
        }
        DispatchKeepsQuery(State());
        ProcessCommand();
      }
    }

    method ReadLimit() returns (n: int)
      ensures n == ReadLength(State())
    {
      n := IOBUF_LEN;
      if reqType == MultiBulk && multibulkLen != 0 && bulkLen != -1 && bulkLen >= MBULK_BIG_ARG {
        var remaining := bulkLen + 2 - |query|;
        if remaining < n {
          n := remaining;
        }
      }
    }

    /** One read from the socket.  Bytes are appended and processed, unless the
        buffer exceeds the query limit: then the client is freed, as it is at the
        end of the file and on an error.  A read that would block changes nothing. */
    method HandleRead(r: ReadResult)
      requires Valid(State()) && !freed
      requires r.Bytes? ==> r.chunk != "" && Valid(State().(query := query + r.chunk))
      modifies this
      ensures match r
              case WouldBlock => !freed && State() == old(State())
              case Failed => freed && State() == old(State())
              case EndOfFile => freed && State() == old(State())
              case Bytes(chunk) =>
                var p := old(State()).(query := old(query) + chunk);
                if |p.query| > 512 * 1024 * 1024 then freed && State() == p
                else !freed && State() == UserInput(p)
    {
      match r
      case WouldBlock =>
      case Failed => freed := true;
      case EndOfFile => freed := true;
      case Bytes(chunk) =>
        query := query + chunk;
        if |query| > QUERY_MAX_LEN {
          freed := true;
          return;
        }
        ProcessUserInput();
    }
  }

  /** A whole session: a client sends cmds, the socket delivers the bytes in
      reads of any sizes that the server's read-size rule allows (read number i
      delivers sizes(i) bytes, capped by the rule and by what is left), until
      nothing is left or the client has been freed.

      Whatever the sizes, no protocol error is replied and exactly the commands
      sent are dispatched, in order, if and only if each argument leaves room for
      its CRLF in the query buffer; if not, the session ends at the first command
      with an argument that does not. */
  method Serve(cmds: seq<Command>, sizes: nat -> nat) returns (c: Client)
    requires AllFit(cmds)
    ensures c.errors == [] && !c.closing
    ensures c.freed <==> exists i :: 0 <= i < |cmds| && !AllDeliverable(cmds[i])
    ensures !c.freed ==> c.dispatched == cmds && c.query == ""
    ensures c.freed ==>
      && |c.dispatched| < |cmds| && c.dispatched == cmds[..|c.dispatched|]
      && !AllDeliverable(cmds[|c.dispatched|])
      && forall i :: 0 <= i < |c.dispatched| ==> AllDeliverable(cmds[i])
  {
    c := Deliver(Encode(cmds), cmds, sizes);
  }

  /** The same for a text that encodes the commands, wherever it comes from. */
  method Deliver(text: string, ghost cmds: seq<Command>, sizes: nat -> nat) returns (c: Client)
    requires AllFit(cmds) && text == Encode(cmds)
    ensures c.errors == [] && !c.closing
    ensures c.freed <==> exists i :: 0 <= i < |cmds| && !AllDeliverable(cmds[i])
    ensures !c.freed ==> c.dispatched == cmds && c.query == ""
    ensures c.freed ==>
      && |c.dispatched| < |cmds| && c.dispatched == cmds[..|c.dispatched|]
      && !AllDeliverable(cmds[|c.dispatched|])
      && forall i :: 0 <= i < |c.dispatched| ==> AllDeliverable(cmds[i])
  {
    hide Valid, Encode, Settled, Bounded, UserInput, AllDeliverable, ReadLength;
    c := new Client();
    var rest := text;
    var i := 0;
    FreshOnTrack(cmds);
    while rest != ""
      invariant fresh(c) && !c.freed
      invariant Valid(c.State()) && OnTrack(c.State(), rest, cmds) && Settled(c.State(), cmds)
      decreases |rest|
    {
      ReadLengthIsPositive(c.State(), rest, cmds);
      var limit := c.ReadLimit();
      var n := if sizes(i) < 1 then 1 else if sizes(i) > limit then limit else sizes(i);
      if n > |rest| {
        n := |rest|;
      }
      ChunkOnTrack(c.State(), rest, cmds, n);
      ghost var p := c.State().(query := c.query + rest[..n]);
      c.HandleRead(Bytes(rest[..n]));
      rest := rest[n..];
      i := i + 1;
      if c.freed {
        OverflowIsUndeliverable(p, rest, cmds);
        return;
      }
      UserInputOnTrack(p, rest, cmds);
    }
    NothingLeft(c.State(), cmds);
  }

  /** A command that the parser's limits admit and the query buffer cannot hold:
      one argument of a byte less than 512 MiB. */
  lemma FitsButUndeliverable(cmd: Command)
    requires |cmd| == 2 && cmd[0] == "echo" && |cmd[1]| == MAX_BULK - 1
    ensures Fits(cmd) && !AllDeliverable(cmd)
  {
    assert Lower(CString("echo"))[0] == 'e';
    assert !Deliverable(cmd[1]);
  }

  lemma FreshOnTrack(cmds: seq<Command>)
    requires AllFit(cmds)
    ensures Valid(FRESH) && OnTrack(FRESH, Encode(cmds), cmds) && Settled(FRESH, cmds)
  {
    hide Encode, Digits;
    assert cmds[0..] == cmds;
    assert "" + Encode(cmds) == Encode(cmds);
  }
}
