/** The request format: commands as length-prefixed arguments, and the resumable parser that chunks them back. */
module Resp {
  import opened Bytes
  import opened Decimal

  type Command = seq<seq<byte>>

  const CRLF: seq<byte> := [13, 10]
  const MAX_ARGS: int := 1024 * 1024
  const MAX_BULK: int := 512 * 1024 * 1024

  // ----- Writing -----

  function Header(prefix: byte, n: nat): (s: seq<byte>)
    ensures |s| >= 4 && s[0] == prefix
  {
    [prefix] + Print(n) + CRLF
  }

  function EncodeArg(arg: seq<byte>): (s: seq<byte>)
    ensures |s| >= 6 && s[0] == 36
  {
    Header(36, |arg|) + arg + CRLF
  }

  function EncodeArgs(args: Command): (s: seq<byte>)
    ensures args != [] ==> |s| >= 6
  {
    if args == [] then [] else EncodeArg(args[0]) + EncodeArgs(args[1..])
  }

  /** What the append-only file holds for one command. */
  function Encode(cmd: Command): (s: seq<byte>)
    ensures |s| >= 4 && s[0] == 42
  {
    Header(42, |cmd|) + EncodeArgs(cmd)
  }

  function EncodeAll(cmds: seq<Command>): (s: seq<byte>)
    ensures cmds != [] ==> |s| >= 4
  {
    if cmds == [] then [] else Encode(cmds[0]) + EncodeAll(cmds[1..])
  }

  lemma {:induction false} EncodeArgsAppend(args: Command, arg: seq<byte>)
    ensures EncodeArgs(args + [arg]) == EncodeArgs(args) + EncodeArg(arg)
  {
    hide EncodeArg;
    if args == [] {
      assert args + [arg] == [arg] && [arg][1..] == [];
    } else {
      assert (args + [arg])[1..] == args[1..] + [arg];
      EncodeArgsAppend(args[1..], arg);
    }
  }

  lemma {:induction false} EncodeAllAppend(a: seq<Command>, b: seq<Command>)
    ensures EncodeAll(a + b) == EncodeAll(a) + EncodeAll(b)
  {
    hide Encode;
    if a == [] {
      assert a + b == b;
    } else {
      assert (a + b)[1..] == a[1..] + b;
      EncodeAllAppend(a[1..], b);
    }
  }

  // ----- Reading a header -----

  /** strstr for a line end: the search stops at the first NUL. */
  function StrStr(s: seq<byte>): (r: Option<nat>)
    ensures r.Some? ==> r.value + 2 <= |s|
  {
    if |s| < 2 || s[0] == 0 then None
    else if s[0] == 13 && s[1] == 10 then Some(0)
    else
      match StrStr(s[1..])
      case None => None
      case Some(k) => Some(k + 1)
  }

  lemma {:induction false} StrStrFinds(x: seq<byte>, t: seq<byte>)
    requires forall k :: 0 <= k < |x| ==> x[k] != 0 && x[k] != 13
    ensures StrStr(x + CRLF + t) == Some(|x|)
    decreases |x|
  {
    var s := x + CRLF + t;
    if x == [] {
      assert s[0] == 13 && s[1] == 10;
    } else {
      assert s[0] == x[0];
      assert s[1..] == x[1..] + CRLF + t;
      StrStrFinds(x[1..], t);
    }
  }

  lemma {:induction false} StrStrMisses(s: seq<byte>)
    requires forall k :: 0 <= k < |s| ==> s[k] != 10
    ensures StrStr(s) == None
    decreases |s|
  {
    if |s| >= 2 && s[0] != 0 {
      StrStrMisses(s[1..]);
    }
  }

  lemma HeaderShape(prefix: byte, n: nat)
    requires prefix == 42 || prefix == 36
    ensures var h := Header(prefix, n); var x := [prefix] + Print(n);
      h == x + CRLF && forall k :: 0 <= k < |x| ==> x[k] != 0 && x[k] != 13 && x[k] != 10
  {
    hide Digits;
    PrintShape(n);
  }

  /** A whole header is found and read as its number, whatever follows it. */
  lemma ReadHeader(prefix: byte, n: nat, t: seq<byte>)
    requires n <= LONG_MAX && (prefix == 42 || prefix == 36)
    ensures var s := Header(prefix, n) + t;
      && StrStr(s) == Some(|Header(prefix, n)| - 2)
      && Strtol(s[1..]) == Parsed(n, CRLF + t)
  {
    hide Strtol, StrStr, Print, Digits;
    HeaderShape(prefix, n);
    var x := [prefix] + Print(n);
    StrStrFinds(x, t);
    assert Header(prefix, n) + t == x + CRLF + t;
    assert (Header(prefix, n) + t)[1..] == Print(n) + (CRLF + t);
    PrintRoundTrip(n, CRLF + t);
  }

  /** A cut header is no line yet. */
  lemma CutHeader(prefix: byte, n: nat, m: nat)
    requires (prefix == 42 || prefix == 36) && m < |Header(prefix, n)|
    ensures StrStr(Header(prefix, n)[..m]) == None
  {
    hide StrStr, Print, Digits;
    HeaderShape(prefix, n);
    StrStrMisses(Header(prefix, n)[..m]);
  }

  /** The front of a stream either ends inside the stream's head, or covers it. */
  lemma SplitFront<T>(buf: seq<T>, rest: seq<T>, head: seq<T>, tail: seq<T>)
    requires buf + rest == head + tail
    ensures |buf| < |head| ==> buf == head[..|buf|] && rest != []
    ensures |buf| >= |head| ==> buf == head + buf[|head|..] && buf[|head|..] + rest == tail
  {
    var all := buf + rest;
    if |buf| < |head| {
      assert buf == all[..|buf|] == head[..|buf|];
    } else {
      assert buf[..|head|] == all[..|head|] == head;
      assert buf[|head|..] + rest == all[|head|..] == tail;
    }
  }

  /** A buffer holding the front of a stream that starts with a header: either the header is cut, or it can be read. */
  lemma SplitHeader(prefix: byte, n: nat, tail: seq<byte>, buf: seq<byte>, rest: seq<byte>)
    requires n <= LONG_MAX && (prefix == 42 || prefix == 36) && buf + rest == Header(prefix, n) + tail
    ensures var h := |Header(prefix, n)|;
      if |buf| < h then StrStr(buf) == None && rest != []
      else
        && StrStr(buf) == Some(h - 2) && buf[0] == prefix
        && Strtol(buf[1..]) == Parsed(n, CRLF + buf[h..])
        && buf[h..] + rest == tail
  {
    hide StrStr, Strtol, Header;
    var head := Header(prefix, n);
    SplitFront(buf, rest, head, tail);
    if |buf| < |head| {
      CutHeader(prefix, n, |buf|);
    } else {
      ReadHeader(prefix, n, buf[|head|..]);
    }
  }

  // ----- The resumable parser -----

  datatype RequestType = Unknown | Inline | Multibulk

  /** The part of a client that the request parser uses. */
  datatype State = State(buf: seq<byte>, reqtype: RequestType, multibulklen: int, bulklen: int, argv: Command,
                         closing: bool)

  const FRESH: State := State([], Unknown, 0, -1, [], false)

  /**
    * Ready: a request is complete. NeedMore: wait for bytes. Malformed: the connection is to be closed.
    * Stray: the header was read past the end of the buffered bytes, and what follows is not modelled.
    */
  datatype Status = Ready | NeedMore | Malformed | Stray

  datatype Step = Step(status: Status, state: State)

  function ParseBulkLen(s: State): (r: Step)
    requires s.bulklen >= -1
    ensures r.status.Ready? ==> r.state.bulklen >= 0
    ensures |r.state.buf| <= |s.buf|
    ensures r.state.multibulklen == s.multibulklen && r.state.argv == s.argv && r.state.reqtype == s.reqtype
    ensures r.status != Malformed ==> r.state.closing == s.closing
    ensures r.state.bulklen >= -1
  {
    if s.bulklen != -1 then Step(Ready, s)
    else if StrStr(s.buf).None? then Step(NeedMore, s)
    else if s.buf[0] != 36 then Step(Malformed, s.(closing := true))
    else
      var p := Strtol(s.buf[1..]);
      if p.rest == [] || p.rest[0] != 13 || p.value < 0 || p.value > MAX_BULK then
        Step(Malformed, s.(closing := true))
      else if |p.rest| < 2 then Step(Stray, s)
      else Step(Ready, s.(buf := p.rest[2..], bulklen := p.value))
  }

  function TakeBulk(s: State): State
    requires 0 <= s.bulklen && s.bulklen + 2 <= |s.buf|
  {
    s.(buf := s.buf[s.bulklen + 2..], argv := s.argv + [s.buf[..s.bulklen]],
       bulklen := -1, multibulklen := s.multibulklen - 1)
  }

  function ParseArgs(s: State): (r: Step)
    requires s.bulklen >= -1 && s.multibulklen >= 0
    ensures |r.state.buf| <= |s.buf| && r.state.reqtype == s.reqtype
    ensures r.status.Ready? && s.multibulklen > 0 ==> |r.state.buf| < |s.buf|
    ensures r.status.Ready? || r.status.NeedMore? ==> r.state.closing == s.closing && 0 <= r.state.multibulklen
    ensures r.status.NeedMore? ==> r.state.multibulklen > 0
    ensures r.state.bulklen >= -1
    decreases |s.buf|
  {
    if s.multibulklen == 0 then Step(Ready, s)
    else
      var h := ParseBulkLen(s);
      if !h.status.Ready? || |h.state.buf| < h.state.bulklen + 2 then
        Step(if h.status.Ready? then NeedMore else h.status, h.state)
      else ParseArgs(TakeBulk(h.state))
  }

  /** What must hold when a multibulk request is resumed. */
  predicate Resumable(s: State) {
    && s.bulklen >= -1 && s.multibulklen >= 0
    && (s.multibulklen == 0 ==> s.argv == [] && s.bulklen == -1)
    && (s.multibulklen == 0 && s.reqtype.Multibulk? ==> s.buf != [] && s.buf[0] == 42)
    && (s.multibulklen > 0 ==> s.reqtype.Multibulk?)
  }

  function ParseMultibulk(s: State): (r: Step)
    requires Resumable(s) && s.reqtype.Multibulk?
    ensures r.status.Ready? ==> |r.state.buf| < |s.buf| && r.state.closing == s.closing
    ensures r.status.NeedMore? ==> Resumable(r.state) && r.state.closing == s.closing
  {
    if s.multibulklen > 0 then ParseArgs(s)
    else
      match StrStr(s.buf)
      case None => Step(NeedMore, s)
      case Some(newline) =>
        var n := ToInt32(Strtol(s.buf[1..]).value);
        var t := s.(buf := s.buf[newline + 2..], multibulklen := n);
        if n <= 0 then Step(Ready, t)
        else if n > MAX_ARGS then Step(Malformed, t.(closing := true))
        else ParseArgs(t)
  }

  function WordEnd(line: seq<byte>): (k: nat)
    ensures k <= |line| && (line != [] && line[0] != 32 ==> k > 0)
  {
    if line == [] || line[0] == 32 then 0 else 1 + WordEnd(line[1..])
  }

  /** The non-empty pieces of a line split at every space. */
  function Words(line: seq<byte>): Command
    decreases |line|
  {
    if line == [] then []
    else if line[0] == 32 then Words(line[1..])
    else var k := WordEnd(line); [line[..k]] + Words(line[k..])
  }

  function ParseInline(s: State): (r: Step)
    ensures r.status.Ready? ==> |r.state.buf| < |s.buf| && r.state.closing == s.closing
    ensures r.status.NeedMore? ==> r.state == s
    ensures r.status.Ready? || r.status.NeedMore?
  {
    match StrStr(s.buf)
    case None => Step(NeedMore, s)
    case Some(newline) =>
      Step(Ready, s.(buf := s.buf[newline + 2..], argv := Words(s.buf[..newline])))
  }

  function Reset(s: State): State {
    s.(reqtype := Unknown, multibulklen := 0, bulklen := -1, argv := [])
  }

  /** The request type is decided by the first byte of a request. */
  function Typed(s: State): State
    requires s.buf != []
  {
    if s.reqtype.Unknown? then s.(reqtype := if s.buf[0] == 42 then Multibulk else Inline) else s
  }

  function ParseRequest(s: State): (r: Step)
    requires Resumable(s) && s.buf != []
    ensures r.status.Ready? ==> |r.state.buf| < |s.buf| && r.state.closing == s.closing
    ensures r.status.NeedMore? ==> Resumable(r.state) && r.state.closing == s.closing
  {
    var t := Typed(s);
    if t.reqtype.Inline? then ParseInline(t) else ParseMultibulk(t)
  }

  /** The commands that one pass over the buffer dispatches, and the state it leaves. */
  datatype Served = Served(state: State, dispatched: seq<Command>, status: Status)

  function Serve(s: State): (r: Served)
    requires Resumable(s)
    ensures r.status.NeedMore? || r.status.Ready? ==> Resumable(r.state)
    decreases |s.buf|
  {
    if s.buf == [] || s.closing then Served(s, [], Ready)
    else
      var p := ParseRequest(s);
      if !p.status.Ready? then Served(p.state, [], p.status)
      else
        var r := Serve(Reset(p.state));
        if p.state.argv == [] then r else r.(dispatched := [p.state.argv] + r.dispatched)
  }

  // ----- The parser chunks what was written, however it is cut -----

  /** The requests that can be sent: the parser's own limits. */
  predicate Sendable(cmd: Command) {
    1 <= |cmd| <= 1024 * 1024 && forall k :: 0 <= k < |cmd| ==> |cmd[k]| <= 512 * 1024 * 1024
  }

  predicate AllSendable(cmds: seq<Command>) {
    forall k :: 0 <= k < |cmds| ==> Sendable(cmds[k])
  }

  /** The bytes of a command that are still to be read, from the argument that the parser is at. */
  function OwedArgs(s: State, cmd: Command): seq<byte>
    requires |s.argv| < |cmd|
  {
    var k := |s.argv|;
    if s.bulklen == -1 then EncodeArgs(cmd[k..]) else cmd[k] + CRLF + EncodeArgs(cmd[k + 1..])
  }

  lemma NextArg(cmd: Command, k: nat)
    requires k < |cmd|
    ensures EncodeArgs(cmd[k..]) == Header(36, |cmd[k]|) + (cmd[k] + CRLF + EncodeArgs(cmd[k + 1..]))
  {
    hide Header;
    assert cmd[k..][1..] == cmd[k + 1..];
  }

  /** The bulk header: cut, or read exactly. */
  lemma BulkLenStream(s: State, rest: seq<byte>, cmd: Command, tail: seq<byte>)
    requires Sendable(cmd) && |s.argv| < |cmd| && s.bulklen == -1
    requires s.buf + rest == OwedArgs(s, cmd) + tail
    ensures var r := ParseBulkLen(s);
      || (r == Step(NeedMore, s) && rest != [])
      || (r.status.Ready? && r.state == s.(buf := r.state.buf, bulklen := |cmd[|s.argv|]|)
          && r.state.buf + rest == OwedArgs(r.state, cmd) + tail)
  {
    hide Header, StrStr, Strtol, EncodeArgs;
    var k := |s.argv|;
    NextArg(cmd, k);
    var after := cmd[k] + CRLF + EncodeArgs(cmd[k + 1..]);
    assert s.buf + rest == Header(36, |cmd[k]|) + (after + tail);
    SplitHeader(36, |cmd[k]|, after + tail, s.buf, rest);
  }

  /** One argument's bytes: short, or taken exactly. */
  lemma TakeBulkStream(s: State, rest: seq<byte>, cmd: Command, tail: seq<byte>)
    requires |s.argv| < |cmd| && s.bulklen == |cmd[|s.argv|]| && s.argv == cmd[..|s.argv|]
    requires s.buf + rest == OwedArgs(s, cmd) + tail
    ensures |s.buf| < s.bulklen + 2 ==> rest != []
    ensures |s.buf| >= s.bulklen + 2 ==>
      var t := TakeBulk(s);
      t.argv == cmd[..|t.argv|] && t.buf + rest == EncodeArgs(cmd[|t.argv|..]) + tail
  {
    hide EncodeArgs;
    var k := |s.argv|;
    var n := s.bulklen + 2;
    var after := EncodeArgs(cmd[k + 1..]) + tail;
    var item := cmd[k] + CRLF;
    assert s.buf + rest == item + after;
    if |s.buf| >= n {
      assert s.buf[..n] == (s.buf + rest)[..n] == item;
      assert s.buf[..s.bulklen] == item[..s.bulklen] == cmd[k];
      assert s.buf[n..] + rest == (s.buf + rest)[n..] == after;
      assert cmd[..k] + [cmd[k]] == cmd[..k + 1];
    }
  }

  lemma {:induction false} ArgsStream(s: State, rest: seq<byte>, cmd: Command, tail: seq<byte>)
    requires Sendable(cmd) && |s.argv| < |cmd| && s.argv == cmd[..|s.argv|]
    requires s.multibulklen == |cmd| - |s.argv| && (s.bulklen == -1 || s.bulklen == |cmd[|s.argv|]|)
    requires s.buf + rest == OwedArgs(s, cmd) + tail
    ensures var r := ParseArgs(s); var t := r.state;
      || (r.status.Ready? && t == s.(buf := t.buf, argv := cmd, bulklen := -1, multibulklen := 0) &&
        t.buf + rest == tail)
      || (r.status.NeedMore? && rest != [] && |t.argv| < |cmd| && t.argv == cmd[..|t.argv|]
          && t.multibulklen == |cmd| - |t.argv| && (t.bulklen == -1 || t.bulklen == |cmd[|t.argv|]|)
          && t == s.(buf := t.buf, argv := t.argv, bulklen := t.bulklen, multibulklen := t.multibulklen)
          && t.buf + rest == OwedArgs(t, cmd) + tail)
    decreases |s.buf|
  {
    hide EncodeArgs, ParseBulkLen, Strtol, StrStr, OwedArgs, Sendable;
    if s.bulklen == -1 {
      BulkLenStream(s, rest, cmd, tail);
    } else {
      KnownBulkLen(s);
    }
    var h := ParseBulkLen(s);
    if h.status.Ready? {
      TakeBulkStream(h.state, rest, cmd, tail);
      if |h.state.buf| >= h.state.bulklen + 2 {
        var t := TakeBulk(h.state);
        if t.multibulklen == 0 {
          assert cmd[..|t.argv|] == cmd;
          NoArgs(cmd);
        } else {
          OwedAtHeader(t, cmd);
          ArgsStream(t, rest, cmd, tail);
        }
      }
    }
  }

  lemma KnownBulkLen(s: State)
    requires s.bulklen >= 0
    ensures ParseBulkLen(s) == Step(Ready, s)
  {
  }

  lemma NoArgs(cmd: Command)
    ensures EncodeArgs(cmd[|cmd|..]) == []
  {
  }

  lemma OwedAtHeader(s: State, cmd: Command)
    requires |s.argv| < |cmd| && s.bulklen == -1
    ensures OwedArgs(s, cmd) == EncodeArgs(cmd[|s.argv|..])
  {
  }

  /** Successive reads from the socket, each followed by a pass over the buffer. */
  function Feed(s: State, chunks: seq<seq<byte>>): (r: Served)
    requires Resumable(s)
    decreases |chunks|
  {
    if chunks == [] then Served(s, [], Ready)
    else
      var r := Serve(s.(buf := s.buf + chunks[0]));
      if r.status.Malformed? || r.status.Stray? then r
      else
        var q := Feed(r.state, chunks[1..]);
        q.(dispatched := r.dispatched + q.dispatched)
  }

  function Flatten(chunks: seq<seq<byte>>): seq<byte> {
    if chunks == [] then [] else chunks[0] + Flatten(chunks[1..])
  }
}
