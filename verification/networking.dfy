/** A client connection: the query buffer and the parser that empties it, a request at a time. */
module Networking {
  import opened Bytes
  import opened Decimal
  import opened Resp
  import opened RespStream

  class Client {
    var querybuf: seq<byte>
    var reqtype: RequestType
    var multibulklen: int
    var bulklen: int
    var argv: Command
    var closeAfterReply: bool
    /** The requests handed to processCommand, in order. */
    var executed: seq<Command>

    constructor ()
      ensures View() == FRESH && executed == []
    {
      querybuf, reqtype, multibulklen, bulklen := [], Unknown, 0, -1;
      argv, closeAfterReply, executed := [], false, [];
    }

    function View(): State
      reads this
    {
      State(querybuf, reqtype, multibulklen, bulklen, argv, closeAfterReply)
    }

    /** The state when the first `pos` bytes of the buffer are done with. */
    function From(pos: nat): State
      requires pos <= |querybuf|
      reads this
    {
      View().(buf := querybuf[pos..])
    }

    method ResetClient()
      modifies this
      ensures View() == Reset(old(View())) && executed == old(executed)
    {
      argv, reqtype, multibulklen, bulklen := [], Unknown, 0, -1;
    }

    method SetProtocolError(pos: nat)
      requires pos <= |querybuf|
      modifies this`querybuf, this`closeAfterReply
      ensures View() == old(From(pos)).(closing := true)
    {
      closeAfterReply := true;
      querybuf := querybuf[pos..];
    }

    /** Reads the length of the next argument, if it is unknown and its line is complete. */
    method ReadBulkLen(pos: nat) returns (status: Status, next: nat)
      requires bulklen >= -1 && pos <= |querybuf|
      modifies this
      ensures executed == old(executed)
      ensures status == ParseBulkLen(old(From(pos))).status
      ensures next <= |querybuf| && From(next) == ParseBulkLen(old(From(pos))).state
      ensures status == Malformed ==> next == 0
    {
      hide StrStr, Strtol;
      status, next := Ready, pos;
      if bulklen == -1 {
        var newline := StrStr(querybuf[pos..]);
        if newline.None? { return NeedMore, pos; }
        if querybuf[pos] != 36 {
          SetProtocolError(pos);
          return Malformed, 0;
        }
        var line := querybuf[pos + 1..];
        assert line == querybuf[pos..][1..];
        var p := Strtol(line);
        StrtolSuffix(line);
        if p.rest == [] || p.rest[0] != 13 || p.value < 0 || p.value > MAX_BULK {
          SetProtocolError(pos);
          return Malformed, 0;
        }
        if |p.rest| < 2 { return Stray, pos; }
        var eptr := |querybuf| - |p.rest|;
        assert querybuf[eptr + 2..] == p.rest[2..];
        bulklen := p.value;
        next := eptr + 2;
      }
    }

    /** Takes the next argument out of the buffer. */
    method TakeArgument(pos: nat) returns (next: nat)
      requires 0 <= bulklen && pos + bulklen + 2 <= |querybuf|
      modifies this
      ensures executed == old(executed)
      ensures next <= |querybuf| && From(next) == TakeBulk(old(From(pos)))
    {
      assert querybuf[pos..][..bulklen] == querybuf[pos..pos + bulklen];
      assert querybuf[pos..][bulklen + 2..] == querybuf[pos + bulklen + 2..];
      argv := argv + [querybuf[pos..pos + bulklen]];
      next := pos + bulklen + 2;
      bulklen, multibulklen := -1, multibulklen - 1;
    }

    /** Arguments, as many as are complete in the buffer, which is trimmed behind the last one read. */
    method ReadArguments(start: nat) returns (status: Status)
      requires start <= |querybuf| && bulklen >= -1 && multibulklen >= 0
      modifies this
      ensures executed == old(executed)
      ensures Step(status, View()) == ParseArgs(old(From(start)))
    {
      hide ParseBulkLen, TakeBulk;
      var pos: nat := start;
      while multibulklen != 0
        invariant pos <= |querybuf| && bulklen >= -1 && multibulklen >= 0 && executed == old(executed)
        invariant ParseArgs(From(pos)) == ParseArgs(old(From(start)))
        decreases |querybuf| - pos
      {
        ghost var s := From(pos);
        ghost var left := multibulklen;
        status, pos := ReadBulkLen(pos);
        if status == Ready {
          assert From(pos).bulklen >= 0;
          if |querybuf| - pos < bulklen + 2 {
            status := NeedMore;
          } else {
            TakeBulkShrinks(From(pos));
            pos := TakeArgument(pos);
          }
        }
        if status != Ready {
          querybuf := querybuf[pos..];
          return;
        }
      }
      status := Ready;
      querybuf := querybuf[pos..];
    }

    method ProcessMultibulkBuffer() returns (status: Status)
      requires Resumable(View()) && reqtype.Multibulk?
      modifies this
      ensures executed == old(executed)
      ensures Step(status, View()) == ParseMultibulk(old(View()))
    {
      hide StrStr, Strtol, ParseArgs;
      if multibulklen != 0 {
        assert querybuf[0..] == querybuf;
        status := ReadArguments(0);
        return;
      }
      var newline := StrStr(querybuf);
      if newline.None? { return NeedMore; }
      multibulklen := ToInt32(Strtol(querybuf[1..]).value);
      var pos := newline.value + 2;
      if multibulklen <= 0 {
        querybuf := querybuf[pos..];
        return Ready;
      }
      if multibulklen > MAX_ARGS {
        SetProtocolError(pos);
        return Malformed;
      }
      status := ReadArguments(pos);
    }

    method ProcessInlineBuffer() returns (status: Status)
      modifies this
      ensures executed == old(executed)
      ensures Step(status, View()) == ParseInline(old(View()))
    {
      hide StrStr, Words;
      var newline := StrStr(querybuf);
      if newline.None? { return NeedMore; }
      argv := Words(querybuf[..newline.value]);
      querybuf := querybuf[newline.value + 2..];
      status := Ready;
    }

    /** One request, if it is complete. */
    method ProcessRequest() returns (status: Status)
      requires Resumable(View()) && querybuf != []
      modifies this
      ensures executed == old(executed)
      ensures Step(status, View()) == ParseRequest(old(View()))
    {
      hide ParseMultibulk, ParseInline;
      if reqtype.Unknown? {
        reqtype := if querybuf[0] == 42 then Multibulk else Inline;
      }
      if reqtype.Inline? {
        status := ProcessInlineBuffer();
      } else {
        status := ProcessMultibulkBuffer();
      }
    }

    /** Dispatches every complete request in the buffer. */
    method ProcessInputBuffer() returns (status: Status)
      requires Resumable(View())
      modifies this
      ensures View() == Serve(old(View())).state && status == Serve(old(View())).status
      ensures executed == old(executed) + Serve(old(View())).dispatched
    {
      hide ParseRequest;
      ghost var all := Serve(View());
      ghost var before := executed;
      while querybuf != []
        invariant Resumable(View()) && before <= executed
        invariant var r := Serve(View());
          r.state == all.state && r.status == all.status
          && executed + r.dispatched == before + all.dispatched
        decreases |querybuf|
      {
        ghost var s := View();
        if closeAfterReply { return Ready; }
        status := ProcessRequest();
        if status != Ready { return; }
        ghost var rest := Serve(Reset(View())).dispatched;
        assert executed + ([argv] + rest) == executed + [argv] + rest;
        if argv != [] {
          executed := executed + [argv];
        }
        ResetClient();
        assert Serve(s).dispatched == (if s.closing then [] else Serve(s).dispatched);
      }
      status := Ready;
    }

    /** readQueryFromClient after a read that returned some bytes. */
    method ReadQuery(bytes: seq<byte>) returns (status: Status)
      requires Resumable(View().(buf := querybuf + bytes))
      modifies this
      ensures var r := Serve(old(View().(buf := querybuf + bytes)));
        View() == r.state && status == r.status && executed == old(executed) + r.dispatched
    {
      querybuf := querybuf + bytes;
      status := ProcessInputBuffer();
    }
  }

  lemma TakeBulkShrinks(s: State)
    requires 0 <= s.bulklen && s.bulklen + 2 <= |s.buf|
    ensures |TakeBulk(s).buf| < |s.buf| && TakeBulk(s).bulklen == -1
    ensures TakeBulk(s).multibulklen == s.multibulklen - 1
  {
  }

  /** A client that receives the bytes of some requests in any pieces executes exactly these requests, in order. */
  method Converse(c: Client, chunks: seq<seq<byte>>, ghost ms: seq<Message>)
    requires c.View() == FRESH && AllSent(ms) && Flatten(chunks) == WireAll(ms)
    modifies c
    ensures c.executed == old(c.executed) + Requests(ms) && c.View() == FRESH
  {
    hide Serve, WireAll, Flatten, Sent, Requests;
    EveryCutDispatches(ms, chunks);
    var i := 0;
    ghost var before := c.executed;
    while i < |chunks|
      invariant 0 <= i <= |chunks| && before <= c.executed && Resumable(c.View())
      invariant before + Requests(ms) == c.executed + Feed(c.View(), chunks[i..]).dispatched
      invariant Feed(c.View(), chunks[i..]).state == FRESH
      invariant !Feed(c.View(), chunks[i..]).status.Malformed? && !Feed(c.View(), chunks[i..]).status.Stray?
    {
      var status := c.ReadQuery(chunks[i]);
      i := i + 1;
    }
  }
}
