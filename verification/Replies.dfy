/** The output side of a client: a static buffer, then a list of strings, drained
    by partial writes; and the scheduling of those writes. */
module Replies {
  import opened Decimal
  import opened Robj
  import RespWire

  const REPLY_MAX_LEN: nat := 16 * 1024
  const NET_MAX_WRITES: nat := 64 * 1024
  const SHARED_BULKHDR_LEN: int := 32

  ghost function Concat(nodes: seq<string>): string {
    if nodes == [] then "" else nodes[0] + Concat(nodes[1..])
  }

  function Total(nodes: seq<string>): nat {
    if nodes == [] then 0 else |nodes[0]| + Total(nodes[1..])
  }

  lemma {:induction false} ConcatLast(nodes: seq<string>, s: string)
    ensures Concat(nodes + [s]) == Concat(nodes) + s
    ensures Total(nodes + [s]) == Total(nodes) + |s|
    decreases |nodes|
  {
    if nodes == [] {
      assert ([] + [s])[1..] == [];
      assert Concat([s]) == s + "";
    } else {
      assert (nodes + [s])[1..] == nodes[1..] + [s];
      ConcatLast(nodes[1..], s);
    }
  }

  lemma ConcatGrowLast(nodes: seq<string>, s: string)
    requires nodes != []
    ensures var n := |nodes| - 1; var grown := nodes[n := nodes[n] + s];
      Concat(grown) == Concat(nodes) + s && Total(grown) == Total(nodes) + |s|
  {
    var n := |nodes| - 1;
    ConcatLast(nodes[..n], nodes[n]);
    ConcatLast(nodes[..n], nodes[n] + s);
    assert nodes == nodes[..n] + [nodes[n]];
    assert nodes[n := nodes[n] + s] == nodes[..n] + [nodes[n] + s];
  }

  /** Append to the last string when the result stays within the limit, else add
      a string. */
  function ListAdd(nodes: seq<string>, s: string): seq<string> {
    var n := |nodes| - 1;
    if nodes == [] then [s]
    else if |nodes[n]| + |s| <= REPLY_MAX_LEN then nodes[n := nodes[n] + s]
    else nodes + [s]
  }

  lemma ListAddMeans(nodes: seq<string>, s: string)
    ensures var nodes' := ListAdd(nodes, s);
      && Concat(nodes') == Concat(nodes) + s && Total(nodes') == Total(nodes) + |s|
      && nodes' != [] && (nodes != [] ==> |nodes[0]| <= |nodes'[0]|)
  {
    hide Concat, Total;
    ConcatLast(nodes, s);
    if nodes == [] {
      assert [] + [s] == [s];
    } else {
      ConcatGrowLast(nodes, s);
    }
  }

  lemma HeadFits(nodes: seq<string>)
    requires nodes != []
    ensures |nodes[0]| <= |Concat(nodes)| && |Concat(nodes)| == Total(nodes)
    decreases |nodes|
  {
    if |nodes| > 1 {
      HeadFits(nodes[1..]);
    }
  }

  /** Dropping k bytes from the front commutes with adding at the back. */
  lemma DropThenAdd(t: string, s: string, k: nat)
    requires k <= |t|
    ensures (t + s)[k..] == t[k..] + s
  {
  }

  class Output {
    var fd: int
    var closeAfterReply: bool
    const buf: array<char>
    var bufOffset: nat
    var bufSentLen: nat
    var reply: seq<string>
    var repliedLen: int
    /** Everything the kernel has accepted from this client's buffers. */
    var sent: string

    /** CLIENT_PENDING_WRITE, and how often the client is on the list of clients
        with pending writes. */
    var pendingWrite: bool
    var listed: nat
    /** Whether a write handler is installed. */
    var handler: bool
    /** CLIENT_CLOSE_ASAP. */
    var closeAsap: bool
    var freed: bool

    ghost predicate Valid()
      reads `bufOffset, `bufSentLen, `reply, `repliedLen, buf
    {
      && buf.Length == REPLY_MAX_LEN && bufOffset <= REPLY_MAX_LEN
      && repliedLen == Total(reply)
      && if bufOffset > 0 then bufSentLen < bufOffset
         else bufSentLen == 0 || (reply != [] && bufSentLen < |reply[0]|)
    }

    predicate HasPendingReplies()
      reads this
    {
      bufOffset > 0 || reply != []
    }

    /** The bytes still to be written, in order.  What bufSentLen counts depends
        on the tier: bytes of the buffer while it holds any, else of the head of
        the list. */
    ghost function Pending(): string
      requires Valid()
      reads `bufOffset, `bufSentLen, `reply, `repliedLen, buf
    {
      if bufOffset > 0 then buf[..bufOffset][bufSentLen..] + Concat(reply)
      else Concat(reply)[bufSentLen..]
    }

    /** What the peer has received or will receive. */
    ghost function Stream(): string
      requires Valid()
      reads `bufOffset, `bufSentLen, `reply, `repliedLen, `sent, buf
    {
      sent + Pending()
    }

    /** Output is never stranded: a live client with pending output is on the list
        of pending writes, or has a write handler, or is about to be closed; the
        flag and the list agree, and flag and handler exclude each other. */
    ghost predicate Scheduled()
      reads this
    {
      !freed ==>
        && listed == (if pendingWrite then 1 else 0)
        && !(pendingWrite && handler)
        && (handler ==> HasPendingReplies())
        && (HasPendingReplies() && fd > 0 ==> pendingWrite || handler || closeAsap)
    }

    constructor (fd: int)
      ensures Valid() && Scheduled() && Stream() == "" && !freed && !closeAfterReply && this.fd == fd
      ensures fresh(buf)
    {
      this.fd := fd;
      closeAfterReply, pendingWrite, handler, closeAsap, freed := false, false, false, false, false;
      buf := new char[REPLY_MAX_LEN];
      bufOffset, bufSentLen, reply, repliedLen, sent, listed := 0, 0, [], 0, "", 0;
    }

    /** prepare_client_to_write. */
    method PrepareToWrite() returns (ok: bool)
      requires Valid()
      modifies this`pendingWrite, this`listed
      ensures Valid() && Stream() == old(Stream())
      ensures ok <==> fd > 0
      ensures pendingWrite == (old(pendingWrite) || (fd > 0 && !HasPendingReplies()))
      ensures listed == old(listed) + if pendingWrite && !old(pendingWrite) then 1 else 0
      ensures old(Scheduled()) ==> Scheduled() && (ok && !freed ==> pendingWrite || HasPendingReplies())
    {
      if fd <= 0 {
        return false;
      }
      if !HasPendingReplies() && !pendingWrite {
        pendingWrite := true;
        listed := listed + 1;
      }
      ok := true;
    }

    /** add_reply_to_buffer: true when nothing is left to do for s. */
    method AddToBuffer(s: string) returns (ok: bool)
      requires Valid()
      modifies this`bufOffset, buf
      ensures Valid()
      ensures ok <==> closeAfterReply || (reply == [] && |s| <= 16 * 1024 - old(bufOffset))
      ensures Stream() == old(Stream()) + if ok && !closeAfterReply then s else ""
      ensures HasPendingReplies() ==> old(HasPendingReplies()) || s != ""
      ensures old(HasPendingReplies()) ==> HasPendingReplies()
    {
      var available := buf.Length - bufOffset;
      if closeAfterReply {
        return true;
      }
      if |reply| > 0 {
        return false;
      }
      if |s| > available {
        return false;
      }
      CopyIn(s);
      DropThenAdd(old(buf[..bufOffset]), s, bufSentLen);
      bufOffset := bufOffset + |s|;
      ok := true;
      StreamAfterCopy(old(Stream()), old(buf[..bufOffset]), s);
    }

    /** The memcpy behind the bytes already buffered. */
    method CopyIn(s: string)
      requires bufOffset + |s| <= buf.Length
      modifies buf
      ensures buf[..bufOffset + |s|] == old(buf[..bufOffset]) + s
    {
      forall i | 0 <= i < |s| {
        buf[bufOffset + i] := s[i];
      }
    }

    lemma StreamAfterCopy(before: string, was: string, s: string)
      requires Valid() && reply == [] && buf[..bufOffset] == was + s && bufSentLen <= |was|
      requires before == sent + was[bufSentLen..]
      ensures Stream() == before + s
    {
      assert Concat(reply) == "";
      DropThenAdd(was, s, bufSentLen);
      if bufOffset == 0 {
        assert before + s == sent + "";
      } else {
        assert sent + (was[bufSentLen..] + s) == sent + was[bufSentLen..] + s;
        assert Pending() == was[bufSentLen..] + s;
      }
    }

    /** add_reply_{object,sds,str}_to_list: append to the last string of the list
        when the result stays within the limit, else add a string. */
    method AddToList(s: string)
      requires Valid()
      modifies this`reply, this`repliedLen
      ensures Valid()
      ensures Stream() == old(Stream()) + if closeAfterReply then "" else s
      ensures !closeAfterReply ==> HasPendingReplies()
      ensures closeAfterReply ==> reply == old(reply)
    {
      if closeAfterReply {
        return;
      }
      hide Concat, Total;
      ListAddMeans(reply, s);
      if reply != [] {
        HeadFits(reply);
      }
      ghost var c := Concat(reply);
      repliedLen := repliedLen + |s|;
      if |reply| == 0 {
        reply := [s];
      } else {
        var n := |reply| - 1;
        if |reply[n]| + |s| <= REPLY_MAX_LEN {
          reply := reply[n := reply[n] + s];
        } else {
          reply := reply + [s];
        }
      }
      assert reply == ListAdd(old(reply), s);
      StreamAfterList(old(Stream()), c, s);
    }

    lemma StreamAfterList(before: string, c: string, s: string)
      requires Valid() && Concat(reply) == c + s && (bufOffset == 0 ==> bufSentLen <= |c|)
      requires before == sent + if bufOffset > 0 then buf[..bufOffset][bufSentLen..] + c else c[bufSentLen..]
      ensures Stream() == before + s
    {
      hide Concat, Total;
      if bufOffset == 0 {
        DropThenAdd(c, s, bufSentLen);
        assert sent + (c[bufSentLen..] + s) == before + s;
      } else {
        var b := buf[..bufOffset][bufSentLen..];
        assert sent + (b + (c + s)) == sent + (b + c) + s;
      }
    }

    // ----- adding replies -----

    /** reply_add_str and reply_add_sds: the bytes join the stream, unless the
        client is not connected or is closing; scheduling is kept. */
    method AddStr(s: string)
      requires Valid()
      modifies this`pendingWrite, this`listed, this`bufOffset, this`reply, this`repliedLen, buf
      ensures Valid()
      ensures Stream() == old(Stream()) + if fd > 0 && !closeAfterReply then s else ""
      ensures old(Scheduled()) ==> Scheduled()
    {
      hide Concat, Total, Pending;
      var ok := PrepareToWrite();
      if !ok {
        return;
      }
      var done := AddToBuffer(s);
      if !done {
        AddToList(s);
      }
    }

    /** reply_add_obj.  A small integer goes straight to the buffer, which always
        has room for its text. */
    method AddObj(o: Object)
      requires Valid() && o.Valid()
      modifies this`pendingWrite, this`listed, this`bufOffset, this`reply, this`repliedLen, buf
      ensures Valid()
      ensures Stream() == old(Stream()) + if fd > 0 && !closeAfterReply then o.Denotes() else ""
      ensures old(Scheduled()) ==> Scheduled()
    {
      hide Concat, Total, Pending, Text;
      var prepared := PrepareToWrite();
      if !prepared {
        return;
      }
      if o.Int? && |reply| == 0 && buf.Length - bufOffset >= 32 {
        AddSmall(o.v);
        return;
      }
      var decoded := GetDecodedObject(o);
      var done := AddToBuffer(decoded.s);
      if !done {
        AddToList(decoded.s);
      }
    }

    /** The text of an integer, when the buffer has 32 bytes left. */
    method AddSmall(v: int)
      requires Valid() && InRange(v) && reply == [] && REPLY_MAX_LEN - bufOffset >= 32
      modifies this`bufOffset, buf
      ensures Valid()
      ensures Stream() == old(Stream()) + if !closeAfterReply then Text(v) else ""
      ensures HasPendingReplies() ==> old(HasPendingReplies()) || Text(v) != ""
      ensures old(HasPendingReplies()) ==> HasPendingReplies()
    {
      hide Concat, Total, Pending, Text;
      var digits := new char[32];
      TextIsShort(v);
      var len := LL2String(digits, 32, v);
      var ok := AddToBuffer(digits[..len]);
      assert ok;
    }

    /** reply_add_longlong_with_prefix, with the shared headers "*0" to "$31". */
    method AddLongLongWithPrefix(ll: int, prefix: char)
      requires Valid() && InRange(ll)
      modifies this`pendingWrite, this`listed, this`bufOffset, this`reply, this`repliedLen, buf
      ensures Valid()
      ensures Stream() == old(Stream()) + if fd > 0 && !closeAfterReply then [prefix] + Text(ll) + "\r\n" else ""
      ensures old(Scheduled()) ==> Scheduled()
    {
      hide Concat, Total, Pending, Text;
      if (prefix == '*' || prefix == '$') && 0 <= ll < SHARED_BULKHDR_LEN {
        AddObj(Raw([prefix] + Text(ll) + "\r\n", 1));
        return;
      }
      var text := new char[127];
      TextIsShort(ll);
      var len := LL2String(text, 127, ll);
      AddStr([prefix] + text[..len] + "\r\n");
    }

    method AddMultiBulkLen(length: int)
      requires Valid() && 0 <= length && InRange(length)
      modifies this`pendingWrite, this`listed, this`bufOffset, this`reply, this`repliedLen, buf
      ensures Valid()
      ensures Stream() == old(Stream()) + if fd > 0 && !closeAfterReply then RespWire.Line('*', length) else ""
      ensures old(Scheduled()) ==> Scheduled()
    {
      hide Concat, Total, Pending, Digits;
      if length < SHARED_BULKHDR_LEN {
        AddObj(Raw(['*'] + Text(length) + "\r\n", 1));
      } else {
        AddLongLongWithPrefix(length, '*');
      }
    }

    /** reply_add_bulk_len. */
    method AddBulkLen(o: Object)
      requires Valid() && o.Valid() && |o.Denotes()| <= LLONG_MAX
      modifies this`pendingWrite, this`listed, this`bufOffset, this`reply, this`repliedLen, buf
      ensures Valid()
      ensures Stream() == old(Stream()) + if fd > 0 && !closeAfterReply then RespWire.Line('$', |o.Denotes()|) else ""
      ensures old(Scheduled()) ==> Scheduled()
    {
      hide Concat, Total, Pending, Digits;
      var len: nat;
      if o.SdsEncoded() {
        len := |o.s|;
      } else {
        len := CountDigits(o.v);
      }
      if len < SHARED_BULKHDR_LEN {
        AddObj(Raw(['$'] + Text(len) + "\r\n", 1));
      } else {
        AddLongLongWithPrefix(len, '$');
      }
    }

    method AddBulkObj(o: Object)
      requires Valid() && o.Valid() && |o.Denotes()| <= LLONG_MAX
      modifies this`pendingWrite, this`listed, this`bufOffset, this`reply, this`repliedLen, buf
      ensures Valid()
      ensures Stream() == old(Stream()) + if fd > 0 && !closeAfterReply then RespWire.Bulk(o.Denotes()) else ""
      ensures old(Scheduled()) ==> Scheduled()
    {
      hide Concat, Total, Pending, Text, RespWire.Line;
      AddBulkLen(o);
      AddObj(o);
      AddObj(Raw("\r\n", 1));
      Associate(old(Stream()), RespWire.Line('$', |o.Denotes()|), o.Denotes(), "\r\n");
    }

    /** How the commands print a list: the array header, then each object. */
    method AddArray(objs: seq<Object>)
      requires Valid() && |objs| <= LLONG_MAX
      requires forall i :: 0 <= i < |objs| ==> objs[i].Valid() && |objs[i].Denotes()| <= LLONG_MAX
      modifies this`pendingWrite, this`listed, this`bufOffset, this`reply, this`repliedLen, buf
      ensures Valid()
      ensures Stream() == old(Stream()) + if fd > 0 && !closeAfterReply then RespWire.EncodeCommand(Strings(objs)) else ""
      ensures old(Scheduled()) ==> Scheduled()
    {
      hide Concat, Total, Pending, Text, RespWire.Line, RespWire.Bulk, RespWire.Bulks, Stream, Scheduled, Strings;
      AddMultiBulkLen(|objs|);
      ghost var live := fd > 0 && !closeAfterReply;
      var i := 0;
      NoBulks(objs);
      while i < |objs|
        invariant i <= |objs| && Valid() && (old(Scheduled()) ==> Scheduled())
        invariant Stream() == old(Stream())
          + if live then RespWire.Line('*', |objs|) + RespWire.Bulks(Strings(objs[..i])) else ""
      {
        ghost var before := Stream();
        AddBulkObj(objs[i]);
        BulksMore(objs, i);
        Associate(old(Stream()), RespWire.Line('*', |objs|), RespWire.Bulks(Strings(objs[..i])),
          RespWire.Bulk(objs[i].Denotes()));
        i := i + 1;
      }
      assert objs[..i] == objs;
      StringsLength(objs);
    }

    // ----- draining -----

    /** One write(2) from the buffer: n of its unsent bytes are accepted. */
    method SentFromBuffer(n: nat)
      requires Valid() && bufOffset > 0 && 0 < n <= bufOffset - bufSentLen
      requires n <= |Pending()|
      modifies this`sent, this`bufSentLen, this`bufOffset
      ensures Valid() && Stream() == old(Stream())
      ensures n <= |old(Pending())| && sent == old(sent) + old(Pending())[..n] && Pending() == old(Pending())[n..]
    {
      hide Concat, Total, Stream, Pending;
      ghost var b, k, rest, s0, p := buf[..bufOffset], bufSentLen, Concat(reply), sent, Pending();
      SliceOfPrefix(buf[..], bufOffset, k, n);
      assert buf[..][k..k + n] == buf[k..k + n] && buf[..][..bufOffset] == b;
      PendingOfBuffer();
      assert p[..n] == b[k..k + n] && p[n..] == b[k + n..] + rest by { Advance(b, rest, k, n); }
      assert k + n == |b| ==> p[n..] == rest[0..] by { Advance(b, rest, k, n); }
      sent := sent + buf[bufSentLen..bufSentLen + n];
      bufSentLen := bufSentLen + n;
      if bufSentLen == bufOffset {
        bufOffset := 0;
        bufSentLen := 0;
        PendingOfList();
      } else {
        PendingOfBuffer();
      }
      assert Stream() == s0 + p by {
        StreamIs();
        Conserve(s0, p, n);
      }
    }

    lemma PendingOfBuffer()
      requires Valid() && bufOffset > 0
      ensures Pending() == buf[..bufOffset][bufSentLen..] + Concat(reply) && Stream() == sent + Pending()
    {
      hide Concat, Total;
    }

    lemma PendingOfList()
      requires Valid() && bufOffset == 0
      ensures bufSentLen <= |Concat(reply)| && Pending() == Concat(reply)[bufSentLen..]
    {
    }

    lemma StreamIs()
      requires Valid()
      ensures Stream() == sent + Pending()
    {
      hide Pending;
    }

    /** One write(2) from the string at the head of the list. */
    method SentFromHead(n: nat)
      requires Valid() && bufOffset == 0 && reply != [] && 0 < n <= |reply[0]| - bufSentLen
      requires n <= |Pending()|
      modifies this`sent, this`bufSentLen, this`reply, this`repliedLen
      ensures Valid() && Stream() == old(Stream())
      ensures n <= |old(Pending())| && sent == old(sent) + old(Pending())[..n] && Pending() == old(Pending())[n..]
    {
      hide Concat, Total, Stream, Pending;
      ghost var p, s0, k, nodes := Pending(), sent, bufSentLen, reply;
      PendingOfList();
      StreamIs();
      HeadTotal(nodes);
      assert p[..n] == nodes[0][k..k + n] by { HeadAdvance(nodes, k, n); }
      assert p[n..] == if k + n == |nodes[0]| then Concat(nodes[1..])[0..] else Concat(nodes)[k + n..] by {
        HeadAdvance(nodes, k, n);
      }
      sent := sent + reply[0][bufSentLen..bufSentLen + n];
      bufSentLen := bufSentLen + n;
      if bufSentLen == |reply[0]| {
        repliedLen := repliedLen - |reply[0]|;
        reply := reply[1..];
        bufSentLen := 0;
      }
      PendingOfList();
      assert Stream() == s0 + p by {
        StreamIs();
        Conserve(s0, p, n);
      }
    }

    /** reply_write_to_client.  The i-th write(2) returns results(i): -1 or 0, or
        a number of bytes, at most those offered; `again` tells EAGAIN from other
        errors and belowLimit whether memory use is below its limit.  n is the
        number of writes made.  Nothing is lost, repeated or reordered; the client
        is freed exactly when the last write failed for good or when it was closing
        and all its output has gone; and a drained client loses its handler. */
    method WriteToClient(handlerInstalled: bool, results: nat -> int, again: bool, belowLimit: nat -> bool)
      returns (ok: bool, ghost n: nat)
      requires Valid() && !freed
      modifies this
      ensures Valid() && Stream() == old(Stream()) && old(sent) <= sent
      ensures fd == old(fd) && closeAfterReply == old(closeAfterReply) && closeAsap == old(closeAsap)
      ensures pendingWrite == old(pendingWrite) && listed == old(listed)
      ensures ok <==> !freed
      ensures Accepted(results, n)
      ensures freed <==> Fails(results, n, again) || (closeAfterReply && !HasPendingReplies())
      ensures HasPendingReplies() ==> StopsAt(results, belowLimit, n, |sent| - |old(sent)|)
      ensures Refused(results, n) ==> HasPendingReplies()
      ensures ok && !HasPendingReplies() ==> !closeAfterReply && bufSentLen == 0
      ensures ok ==> handler == (old(handler) && (HasPendingReplies() || !handlerInstalled))
    {
      hide Concat, Total, Pending, Stream;
      var nwritten;
      nwritten, n := Drain(results, belowLimit);
      if nwritten == -1 && !again {
        freed := true;
        return false, n;
      }
      if !HasPendingReplies() {
        bufSentLen := 0;
        if handlerInstalled { handler := false; }
        if closeAfterReply {
          freed := true;
          return false, n;
        }
      }
      ok := true;
    }

    /** The loop over write(2): until all is sent, a write accepts nothing, or the
        client has had its share of this event. */
    method Drain(results: nat -> int, belowLimit: nat -> bool) returns (nwritten: int, ghost n: nat)
      requires Valid()
      modifies this`sent, this`bufSentLen, this`bufOffset, this`reply, this`repliedLen
      ensures Valid() && Stream() == old(Stream()) && old(sent) <= sent
      ensures nwritten >= -1 && (nwritten == -1 <==> n > 0 && results(n - 1) < 0)
      ensures Accepted(results, n)
      ensures |sent| > |old(sent)| <==> n > 0 && results(0) > 0
      ensures HasPendingReplies() ==> StopsAt(results, belowLimit, n, |sent| - |old(sent)|)
      ensures Refused(results, n) ==> HasPendingReplies()
    {
      hide Concat, Total, Pending, Stream;
      nwritten, n := 0, 0;
      var totwritten := 0;
      var i := 0;
      while HasPendingReplies()
        invariant Valid() && Stream() == old(Stream()) && old(sent) <= sent
        invariant nwritten >= 0 && |sent| == |old(sent)| + totwritten && n == i
        invariant forall m: nat :: m < n ==> results(m) > 0
        invariant totwritten > 0 <==> n > 0
        decreases |Pending()|, |reply|
      {
        PendingSize();
        if bufOffset > 0 {
          nwritten := Written(results(i), bufOffset - bufSentLen);
          i, n := i + 1, n + 1;
          if nwritten <= 0 { break; }
          SentFromBuffer(nwritten);
        } else {
          if |reply[0]| == 0 {
            DropEmptyHead();
            continue;
          }
          nwritten := Written(results(i), |reply[0]| - bufSentLen);
          i, n := i + 1, n + 1;
          if nwritten <= 0 { break; }
          SentFromHead(nwritten);
        }
        totwritten := totwritten + nwritten;
        if totwritten > NET_MAX_WRITES && belowLimit(i) { break; }
      }
    }

    /** With nothing pending, the stream is what was sent. */
    lemma AllSent()
      requires Valid() && !HasPendingReplies()
      ensures Stream() == sent && Pending() == ""
    {
    }

    lemma PendingSize()
      requires Valid() && HasPendingReplies()
      ensures bufOffset > 0 ==> |Pending()| >= bufOffset - bufSentLen
      ensures bufOffset == 0 ==> |Pending()| >= |reply[0]| - bufSentLen
    {
    }

    /** The loop drops an empty string at the head of the list. */
    method DropEmptyHead()
      requires Valid() && bufOffset == 0 && reply != [] && reply[0] == ""
      modifies this`reply
      ensures Valid() && Stream() == old(Stream()) && Pending() == old(Pending()) && reply == old(reply)[1..]
    {
      reply := reply[1..];
    }

    // ----- scheduling -----

    /** handle_clients_with_pending_writes for this client; eventAdded is whether
        the write handler, if needed, could be installed. */
    method Flush(results: nat -> int, again: bool, belowLimit: nat -> bool, eventAdded: bool)
      returns (ghost n: nat)
      requires Valid() && Scheduled() && !freed
      modifies this
      ensures Valid() && Scheduled() && Stream() == old(Stream()) && old(sent) <= sent
      ensures fd == old(fd) && closeAfterReply == old(closeAfterReply)
      ensures Accepted(results, n) && (!old(pendingWrite) ==> n == 0 && sent == old(sent))
      ensures freed <==>
        old(pendingWrite) && (Fails(results, n, again) || (closeAfterReply && !HasPendingReplies()))
      ensures !freed ==> !pendingWrite
      ensures !freed && old(pendingWrite) && HasPendingReplies() ==>
        && StopsAt(results, belowLimit, n, |sent| - |old(sent)|)
        && if eventAdded then handler else closeAsap
    {
      hide Concat, Total, Pending, Stream;
      n := 0;
      if !pendingWrite {
        return;
      }
      pendingWrite := false;
      listed := listed - 1;
      var ok;
      ok, n := WriteToClient(false, results, again, belowLimit);
      if !ok {
        return;
      }
      if HasPendingReplies() {
        if eventAdded {
          handler := true;
        } else {
          closeAsap := true;
        }
      }
    }

    /** reply_write_callback: the socket is writable and a handler is installed. */
    method Writable(results: nat -> int, again: bool, belowLimit: nat -> bool) returns (ghost n: nat)
      requires Valid() && Scheduled() && !freed && handler
      modifies this
      ensures Valid() && Scheduled() && Stream() == old(Stream()) && old(sent) <= sent
      ensures fd == old(fd) && closeAfterReply == old(closeAfterReply)
      ensures Accepted(results, n)
      ensures freed <==> Fails(results, n, again) || (closeAfterReply && !HasPendingReplies())
      ensures !freed && HasPendingReplies() ==> StopsAt(results, belowLimit, n, |sent| - |old(sent)|)
      ensures !freed ==> handler == HasPendingReplies()
    {
      hide Concat, Total, Pending, Stream;
      var ok;
      ok, n := WriteToClient(true, results, again, belowLimit);
    }

    /** Set CLIENT_CLOSE_AFTER_REPLY: nothing is added to the stream any more. */
    method CloseAfterReply()
      requires Valid()
      modifies this`closeAfterReply
      ensures Valid() && Stream() == old(Stream()) && closeAfterReply
    {
      closeAfterReply := true;
    }
  }

  // ----- the writes of one call, n in number -----

  /** Each write but the last accepted something. */
  ghost predicate Accepted(results: nat -> int, n: nat) {
    forall i: nat :: i + 1 < n ==> results(i) > 0
  }

  /** The last write accepted nothing. */
  ghost predicate Refused(results: nat -> int, n: nat) {
    n > 0 && results(n - 1) <= 0
  }

  /** The last write failed for good. */
  ghost predicate Fails(results: nat -> int, n: nat, again: bool) {
    n > 0 && results(n - 1) < 0 && !again
  }

  /** Why a client keeps pending output: the last write accepted nothing, or the
      client has had more than its share of bytes while memory use was below its
      limit. */
  ghost predicate StopsAt(results: nat -> int, belowLimit: nat -> bool, n: nat, bytes: int) {
    Refused(results, n) || (n > 0 && bytes > 64 * 1024 && belowLimit(n))
  }

  /** The result of write(2) on len bytes. */
  function Written(result: int, len: nat): (n: int)
    ensures -1 <= n <= len
  {
    if result < 0 then -1 else if result > len then len else result
  }

  lemma SliceOfPrefix(s: string, m: nat, k: nat, n: nat)
    requires k + n <= m <= |s|
    ensures s[..m][k..k + n] == s[k..k + n]
  {
  }

  lemma Conserve(sent: string, pending: string, n: nat)
    requires n <= |pending|
    ensures sent + pending == sent + pending[..n] + pending[n..]
  {
    assert pending == pending[..n] + pending[n..];
  }

  /** Moving n bytes from the unsent to the sent part of `first`. */
  lemma Advance(first: string, rest: string, k: nat, n: nat)
    requires k + n <= |first|
    ensures (first[k..] + rest)[..n] == first[k..k + n]
    ensures (first[k..] + rest)[n..] == first[k + n..] + rest
    ensures k + n == |first| ==> first[k + n..] + rest == rest[0..]
  {
  }

  lemma HeadTotal(nodes: seq<string>)
    requires nodes != []
    ensures Total(nodes) == |nodes[0]| + Total(nodes[1..])
  {
  }

  /** The same at the head of the list; a head sent completely is dropped. */
  lemma HeadAdvance(nodes: seq<string>, k: nat, n: nat)
    requires nodes != [] && k + n <= |nodes[0]|
    ensures k + n <= |Concat(nodes)|
    ensures Concat(nodes)[k..][..n] == nodes[0][k..k + n]
    ensures Concat(nodes)[k..][n..] == if k + n == |nodes[0]| then Concat(nodes[1..])[0..] else Concat(nodes)[k + n..]
  {
  }

  lemma Associate(a: string, b: string, c: string, d: string)
    ensures a + b + c + d == a + (b + c + d) && a + (b + c) + d == a + (b + (c + d))
  {
    assert a + (b + c) + d == a + (b + (c + d));
  }

  lemma NoBulks(objs: seq<Object>)
    ensures RespWire.Bulks(Strings(objs[..0])) == ""
  {
  }

  lemma StringsLength(objs: seq<Object>)
    ensures |Strings(objs)| == |objs|
  {
  }

  lemma BulksMore(objs: seq<Object>, i: nat)
    requires i < |objs|
    ensures RespWire.Bulks(Strings(objs[..i + 1])) ==
      RespWire.Bulks(Strings(objs[..i])) + RespWire.Bulk(objs[i].Denotes())
  {
    hide RespWire.Bulks, RespWire.Bulk;
    BulksLast(Strings(objs[..i]), objs[i].Denotes());
    assert Strings(objs[..i + 1]) == Strings(objs[..i]) + [objs[i].Denotes()];
  }

  function Strings(objs: seq<Object>): seq<string> {
    seq(|objs|, i requires 0 <= i < |objs| => objs[i].Denotes())
  }

  lemma {:induction false} BulksLast(args: seq<string>, arg: string)
    ensures RespWire.Bulks(args + [arg]) == RespWire.Bulks(args) + RespWire.Bulk(arg)
    decreases |args|
  {
    hide RespWire.Bulk;
    if args == [] {
      assert RespWire.Bulks([arg]) == RespWire.Bulk(arg) + RespWire.Bulks([arg][1..]);
    } else {
      assert (args + [arg])[1..] == args[1..] + [arg];
      BulksLast(args[1..], arg);
    }
  }

  /** Two's complement negation and C's division by ten. */
  function Negate(n: int): int {
    if n == LLONG_MIN then n else -n
  }

  function TruncatedTenth(n: int): int {
    if n >= 0 then n / 10 else -(-n / 10)
  }

  /** The digit-count loop of reply_add_bulk_len. */
  method CountDigits(v: int) returns (len: nat)
    requires InRange(v)
    ensures len == |Text(v)|
  {
    var n := v;
    len := 1;
    if n < 0 {
      len := len + 1;
      n := Negate(n);
    }
    n := TruncatedTenth(n);
    while n != 0
      invariant LLONG_MIN <= n <= LLONG_MAX
      invariant len + (if n == 0 then 0 else |Digits(if n < 0 then -n else n)|) == |Text(v)|
      decreases if n < 0 then -n else n
    {
      len := len + 1;
      n := TruncatedTenth(n);
    }
  }

  // ----- whole runs -----

  datatype Step =
    | Add(s: string)
    | AddObject(o: Object)
    | Close
    | BeforePoll(results: nat -> int, again: bool, belowLimit: nat -> bool, eventAdded: bool)
    | Event(results: nat -> int, again: bool, belowLimit: nat -> bool)

  predicate Legal(steps: seq<Step>) {
    forall i :: 0 <= i < |steps| && steps[i].AddObject? ==> steps[i].o.Valid()
  }

  /** The n-th and last write of the step failed for good, those before it having
      accepted something. */
  ghost predicate WriteFails(step: Step, n: nat) {
    match step
    case BeforePoll(results, again, _, _) => Accepted(results, n) && Fails(results, n, again)
    case Event(results, again, _) => Accepted(results, n) && Fails(results, n, again)
    case _ => false
  }

  predicate Closed(steps: seq<Step>) {
    exists i :: 0 <= i < |steps| && steps[i].Close?
  }

  /** All the bytes that the steps add: none once the client is closing. */
  function Added(steps: seq<Step>): string {
    if steps == [] then ""
    else
      var init, last := steps[..|steps| - 1], steps[|steps| - 1];
      Added(init) + if Closed(init) then ""
                    else match last
                         case Add(s) => s
                         case AddObject(o) => o.Denotes()
                         case _ => ""
  }

  lemma OneMore(steps: seq<Step>, i: nat)
    requires i < |steps|
    ensures Closed(steps[..i + 1]) <==> Closed(steps[..i]) || steps[i].Close?
    ensures Added(steps[..i + 1]) == Added(steps[..i]) +
      (if Closed(steps[..i]) then ""
       else match steps[i]
            case Add(s) => s
            case AddObject(o) => o.Denotes()
            case _ => "")
  {
    var more := steps[..i + 1];
    assert more[..i] == steps[..i] && more[i] == steps[i];
    if Closed(steps[..i]) {
      var j :| 0 <= j < i && steps[..i][j].Close?;
      assert more[j].Close?;
    }
  }

  /** Any run of replies, closing, before-poll flushes and writable events of one
      connected client, until it is freed: at every point what the kernel has
      accepted, followed by what is pending, is exactly what has been added, and
      pending output is scheduled to be written.  The client is freed only when a
      write fails for good, or when it is closing and everything has been sent. */
  method Run(steps: seq<Step>) returns (c: Output, done: nat, ghost n: nat)
    requires Legal(steps)
    ensures done <= |steps| && (!c.freed ==> done == |steps|)
    ensures c.freed ==> done > 0
    ensures c.freed ==> WriteFails(steps[done - 1], n) || (Closed(steps[..done]) && c.sent == Added(steps[..done]))
    ensures c.Valid() && c.Scheduled() && c.closeAfterReply == Closed(steps[..done])
    ensures c.Stream() == Added(steps[..done])
    ensures c.sent <= Added(steps[..done])
  {
    hide Concat, Total, Text, Added, Closed, Accepted;
    hide Output.Pending, Output.Scheduled;
    c := new Output(1);
    done, n := 0, 0;
    NothingAdded();
    while done < |steps| && !c.freed
      invariant done <= |steps| && fresh(c) && fresh(c.buf)
      invariant c.Valid() && c.Scheduled() && c.fd > 0 && c.closeAfterReply == Closed(steps[..done])
      invariant c.freed ==> done > 0
      invariant c.freed ==> WriteFails(steps[done - 1], n) || (c.closeAfterReply && !c.HasPendingReplies())
      invariant c.Stream() == Added(steps[..done])
    {
      OneMore(steps, done);
      n := Take(c, steps[done]);
      done := done + 1;
    }
    if !c.HasPendingReplies() {
      c.AllSent();
    }
  }

  /** One step of a run.  A closing client that had output pending is freed or
      still has some. */
  method Take(c: Output, step: Step) returns (ghost n: nat)
    requires c.Valid() && c.Scheduled() && c.fd > 0 && !c.freed && (step.AddObject? ==> step.o.Valid())
    modifies c, c.buf
    ensures c.Valid() && c.Scheduled() && c.fd > 0
    ensures c.closeAfterReply == (old(c.closeAfterReply) || step.Close?)
    ensures c.freed ==> WriteFails(step, n) || (c.closeAfterReply && !c.HasPendingReplies())
    ensures old(c.closeAfterReply && c.Pending() != "") && !c.freed ==> c.HasPendingReplies()
    ensures c.Stream() == old(c.Stream()) +
      if old(c.closeAfterReply) then ""
      else match step
           case Add(s) => s
           case AddObject(o) => o.Denotes()
           case _ => ""
  {
    hide Concat, Total, Text, Accepted, Fails;
    hide Output.Pending, Output.Stream;
    n := 0;
    c.StreamIs();
    match step {
      case Add(s) => c.AddStr(s);
      case AddObject(o) => c.AddObj(o);
      case Close => c.CloseAfterReply();
      case BeforePoll(results, again, belowLimit, eventAdded) =>
        n := c.Flush(results, again, belowLimit, eventAdded);
      case Event(results, again, belowLimit) =>
        if c.handler {
          n := c.Writable(results, again, belowLimit);
        }
    }
    c.StreamIs();
    if !c.HasPendingReplies() {
      c.AllSent();
    }
  }

  lemma NothingAdded()
    ensures Added([]) == "" && !Closed([])
  {
  }
}
