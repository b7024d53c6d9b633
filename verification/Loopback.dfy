/** The server's printer against the server's parser: what one connection sends for
    a list of objects, read by another connection. */
module Loopback {
  import opened Robj
  import opened Replies
  import opened RespParser
  import opened RespWire
  import opened RespClient

  /** Reply with the objects as an array, and let the socket take the output: first
      over rounds of writes with any results, failures to accept included, then
      over writes that always accept something. */
  method Print(objs: seq<Object>, rounds: seq<nat -> int>, results: nat -> int, belowLimit: nat -> bool)
    returns (text: string)
    requires ArgsFit(Strings(objs)) && forall i :: 0 <= i < |objs| ==> objs[i].Valid()
    requires forall i: nat :: results(i) > 0
    ensures text == EncodeCommand(Strings(objs))
  {
    hide Concat, Total, EncodeCommand, Output.Stream, Output.Pending;
    LengthsFit(objs);
    var out := new Output(1);
    out.AddArray(objs);
    var i := 0;
    while i < |rounds|
      invariant fresh(out) && fresh(out.buf) && out.Valid() && out.Stream() == EncodeCommand(Strings(objs))
    {
      var nwritten, n := out.Drain(rounds[i], belowLimit);
      i := i + 1;
    }
    out.StreamIs();
    while out.HasPendingReplies()
      invariant fresh(out) && fresh(out.buf) && out.Valid() && out.Stream() == EncodeCommand(Strings(objs))
      invariant out.sent <= out.Stream()
      decreases |out.Stream()| - |out.sent|, out.HasPendingReplies()
    {
      out.StreamIs();
      var nwritten, n := out.Drain(results, belowLimit);
      out.StreamIs();
    }
    out.AllSent();
    text := out.sent;
  }

  lemma LengthsFit(objs: seq<Object>)
    requires ArgsFit(Strings(objs))
    ensures |objs| <= MAX_ARGS && forall i :: 0 <= i < |objs| ==> |objs[i].Denotes()| <= MAX_BULK
  {
    hide Object.Denotes;
    StringsLength(objs);
    assert forall i :: 0 <= i < |objs| ==> Strings(objs)[i] == objs[i].Denotes();
  }

  /** What was printed is parsed into the strings that the objects denote, be they
      raw, embedded or integer-encoded. */
  method ParsePrinted(objs: seq<Object>, rounds: seq<nat -> int>, results: nat -> int, belowLimit: nat -> bool)
    returns (c: Client, ok: bool)
    requires ArgsFit(Strings(objs)) && forall i :: 0 <= i < |objs| ==> objs[i].Valid()
    requires forall i: nat :: results(i) > 0
    ensures ok && c.argv == Strings(objs) && c.query == "" && c.errors == [] && !c.closing
  {
    hide EncodeCommand, MultiBulkInput;
    var text := Print(objs, rounds, results, belowLimit);
    StartsWithCount(Strings(objs));
    c := new Client();
    c.query := text;
    c.reqType := MultiBulk;
    assert c.query == EncodeCommand(Strings(objs)) + "";
    WholeCommand(c.State(), Strings(objs), "");
    ok := c.ProcessMultiBulkInput();
  }

  lemma StartsWithCount(cmd: Command)
    ensures EncodeCommand(cmd) != "" && EncodeCommand(cmd)[0] == '*'
  {
  }

  /** Read from a socket in any pieces, what was printed is dispatched as one
      command of the strings that the objects denote, if and only if each of them
      leaves room for its CRLF in the query buffer. */
  method DeliverPrinted(objs: seq<Object>, rounds: seq<nat -> int>, results: nat -> int,
                        belowLimit: nat -> bool, sizes: nat -> nat)
    returns (c: Client)
    requires Fits(Strings(objs)) && forall i :: 0 <= i < |objs| ==> objs[i].Valid()
    requires forall i: nat :: results(i) > 0
    ensures c.errors == [] && !c.closing
    ensures c.freed <==> !AllDeliverable(Strings(objs))
    ensures c.dispatched == if c.freed then [] else [Strings(objs)]
  {
    hide EncodeCommand, AllDeliverable, IsQuit;
    var text := Print(objs, rounds, results, belowLimit);
    ghost var cmds := [Strings(objs)];
    assert Encode(cmds[1..]) == "";
    assert Encode(cmds) == EncodeCommand(cmds[0]) + "";
    c := Deliver(text, cmds, sizes);
    assert cmds[0] == Strings(objs);
  }
}
