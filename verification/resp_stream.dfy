/**
  * Streams of requests: counted commands and plain lines, in any order. However their bytes are cut into reads, exactly
  * these requests are dispatched.
  */
module RespStream {
  import opened Bytes
  import opened Decimal
  import opened Resp

  /** A word of a line, and the number of spaces behind it. */
  datatype Word = Word(arg: seq<byte>, behind: nat)

  /** A request: a counted command, or a line of words behind some spaces. */
  datatype Message = Bulk(cmd: Command) | Line(front: nat, words: seq<Word>)

  // ----- The bytes of a request -----

  function Spaces(n: nat): seq<byte> {
    if n == 0 then [] else [32] + Spaces(n - 1)
  }

  function Spell(words: seq<Word>): seq<byte> {
    if words == [] then [] else words[0].arg + Spaces(words[0].behind) + Spell(words[1..])
  }

  function Wire(m: Message): seq<byte> {
    match m
    case Bulk(cmd) => Encode(cmd)
    case Line(front, words) => Spaces(front) + Spell(words) + [13, 10]
  }

  function WireAll(ms: seq<Message>): seq<byte> {
    if ms == [] then [] else Wire(ms[0]) + WireAll(ms[1..])
  }

  /** The arguments that a request is made of. */
  function ArgsOf(m: Message): Command {
    match m
    case Bulk(cmd) => cmd
    case Line(_, words) => seq(|words|, k requires 0 <= k < |words| => words[k].arg)
  }

  /** The requests to be dispatched: a blank line is none. */
  function Requests(ms: seq<Message>): seq<Command> {
    if ms == [] then [] else (if ArgsOf(ms[0]) == [] then [] else [ArgsOf(ms[0])]) + Requests(ms[1..])
  }

  // ----- What can be sent -----

  /** No NUL, and no CR directly before an LF. */
  predicate Quiet(s: seq<byte>) {
    forall k :: 0 <= k < |s| ==> s[k] != 0 && (s[k] == 13 && k + 1 < |s| ==> s[k + 1] != 10)
  }

  predicate Plain(arg: seq<byte>) {
    arg != [] && 32 !in arg && Quiet(arg)
  }

  /** Plain words, at least one space between them. */
  predicate Spaced(words: seq<Word>) {
    forall k :: 0 <= k < |words| ==> Plain(words[k].arg) && (k + 1 < |words| ==> words[k].behind > 0)
  }

  /** A command within the parser's limits, or a line that does not begin like one. */
  predicate Sent(m: Message) {
    match m
    case Bulk(cmd) => Sendable(cmd)
    case Line(front, words) => Spaced(words) && (front == 0 && words != [] ==> words[0].arg[0] != 42)
  }

  predicate AllSent(ms: seq<Message>) {
    forall k :: 0 <= k < |ms| ==> Sent(ms[k])
  }

  // ----- Reading a line -----

  lemma SkipSpace(t: seq<byte>)
    ensures Words([32] + t) == Words(t)
  {
    assert ([32] + t)[1..] == t;
  }

  lemma {:induction false} WordsBehind(n: nat, t: seq<byte>)
    ensures Words(Spaces(n) + t) == Words(t)
  {
    hide Words;
    if n == 0 {
      assert Spaces(n) + t == t;
    } else {
      WordsBehind(n - 1, t);
      SkipSpace(Spaces(n - 1) + t);
      assert Spaces(n) + t == [32] + (Spaces(n - 1) + t);
    }
  }

  lemma {:induction false} WordEndIs(arg: seq<byte>, t: seq<byte>)
    requires 32 !in arg && (t == [] || t[0] == 32)
    ensures WordEnd(arg + t) == |arg|
    decreases |arg|
  {
    if arg == [] {
      assert arg + t == t;
    } else {
      WordEndIs(arg[1..], t);
      assert (arg + t)[1..] == arg[1..] + t;
    }
  }

  lemma {:induction false} SpellWords(words: seq<Word>)
    requires Spaced(words)
    ensures Words(Spell(words)) == ArgsOf(Line(0, words))
  {
    if words != [] {
      var w := words[0];
      var others := words[1..];
      var t := Spaces(w.behind) + Spell(others);
      assert Plain(w.arg);
      assert t == [] || t[0] == 32;
      WordEndIs(w.arg, t);
      assert Spell(words) == w.arg + t;
      assert (w.arg + t)[..|w.arg|] == w.arg && (w.arg + t)[|w.arg|..] == t;
      assert (w.arg + t)[0] == w.arg[0];
      WordsBehind(w.behind, Spell(others));
      assert forall k :: 0 <= k < |others| ==> others[k] == words[k + 1];
      SpellWords(others);
    }
  }

  /** Splitting a line gives back its words, whatever spaces stand in front, between and behind. */
  lemma LineWords(front: nat, words: seq<Word>)
    requires Spaced(words)
    ensures Words(Spaces(front) + Spell(words)) == ArgsOf(Line(front, words))
  {
    hide Words, Spell, Spaces, Spaced;
    WordsBehind(front, Spell(words));
    SpellWords(words);
  }

  lemma QuietAppend(a: seq<byte>, b: seq<byte>)
    requires Quiet(a) && Quiet(b)
    requires a != [] && b != [] ==> a[|a| - 1] != 13 || b[0] != 10
    ensures Quiet(a + b)
  {
  }

  lemma {:induction false} SpacesAre(n: nat)
    ensures |Spaces(n)| == n && forall k :: 0 <= k < n ==> Spaces(n)[k] == 32
  {
    if n > 0 {
      SpacesAre(n - 1);
    }
  }

  lemma {:induction false} SpellQuiet(words: seq<Word>)
    requires Spaced(words)
    ensures Quiet(Spell(words))
  {
    hide Quiet;
    if words == [] {
      assert Quiet([]) by { NothingQuiet(); }
    } else {
      var w := words[0];
      assert Plain(w.arg);
      SpacesQuiet(w.behind);
      assert forall k :: 0 <= k < |words[1..]| ==> words[1..][k] == words[k + 1];
      SpellQuiet(words[1..]);
      QuietAppend(w.arg, Spaces(w.behind));
      QuietAppend(w.arg + Spaces(w.behind), Spell(words[1..]));
    }
  }

  lemma NothingQuiet()
    ensures Quiet([])
  {
  }

  lemma SpacesQuiet(n: nat)
    ensures Quiet(Spaces(n)) && |Spaces(n)| == n
    ensures n > 0 ==> Spaces(n)[0] == 32 && Spaces(n)[n - 1] == 32
  {
    SpacesAre(n);
  }

  lemma LineQuiet(front: nat, words: seq<Word>)
    requires Spaced(words)
    ensures Quiet(Spaces(front) + Spell(words))
  {
    hide Quiet, Spell, Spaced, Spaces;
    SpacesQuiet(front);
    SpellQuiet(words);
    QuietAppend(Spaces(front), Spell(words));
  }

  lemma {:induction false} QuietEnds(x: seq<byte>, t: seq<byte>)
    requires Quiet(x)
    ensures StrStr(x + CRLF + t) == Some(|x|)
    decreases |x|
  {
    var s := x + CRLF + t;
    if x == [] {
      assert s[0] == 13 && s[1] == 10;
    } else {
      assert s[0] == x[0];
      assert s[1] == if |x| > 1 then x[1] else 13;
      assert s[1..] == x[1..] + CRLF + t;
      QuietEnds(x[1..], t);
    }
  }

  lemma {:induction false} QuietMisses(s: seq<byte>)
    requires forall k :: 0 <= k < |s| && s[k] == 13 && k + 1 < |s| ==> s[k + 1] != 10
    ensures StrStr(s) == None
    decreases |s|
  {
    if |s| >= 2 && s[0] != 0 {
      QuietMisses(s[1..]);
    }
  }

  lemma CutQuiet(x: seq<byte>, m: nat)
    requires Quiet(x) && m < |x| + 2
    ensures StrStr((x + CRLF)[..m]) == None
  {
    hide StrStr;
    var s := (x + CRLF)[..m];
    assert forall k :: 0 <= k < m ==> s[k] == if k < |x| then x[k] else 13;
    QuietMisses(s);
  }

  /** A buffer holding the front of a stream that starts with a line: either the line is cut, or it is found. */
  lemma SplitLine(x: seq<byte>, tail: seq<byte>, buf: seq<byte>, rest: seq<byte>)
    requires Quiet(x) && buf + rest == (x + CRLF) + tail
    ensures
      if |buf| < |x| + 2 then StrStr(buf) == None && rest != []
      else StrStr(buf) == Some(|x|) && buf[..|x|] == x && buf[|x| + 2..] + rest == tail
  {
    hide StrStr, Quiet;
    SplitFront(buf, rest, x + CRLF, tail);
    if |buf| < |x| + 2 {
      CutQuiet(x, |buf|);
    } else {
      QuietEnds(x, buf[|x| + 2..]);
      assert buf == x + CRLF + buf[|x| + 2..];
    }
  }

  // ----- The parser chunks what was sent, however it is cut -----

  /** The parser has read the arguments of the command before the one it is at, and may have read that one's length. */
  predicate Partly(s: State, cmd: Command) {
    && s.reqtype.Multibulk? && |s.argv| < |cmd| && s.argv == cmd[..|s.argv|]
    && s.multibulklen == |cmd| - |s.argv| && (s.bulklen == -1 || s.bulklen == |cmd[|s.argv|]|)
  }

  /** s is between or inside the requests `ms`, the first of which it may have read in part. */
  predicate Receiving(s: State, ms: seq<Message>) {
    && !s.closing && AllSent(ms)
    && if s.multibulklen == 0 then
         && s.argv == [] && s.bulklen == -1
         && (s.reqtype.Multibulk? ==> s.buf != [] && s.buf[0] == 42)
         && (s.reqtype.Inline? ==> s.buf != [] && s.buf[0] != 42)
       else
         ms != [] && ms[0].Bulk? && Partly(s, ms[0].cmd)
  }

  /** The bytes that are still to be read before `ms` are complete. */
  function Owed(s: State, ms: seq<Message>): seq<byte>
    requires Receiving(s, ms)
  {
    if s.multibulklen == 0 then WireAll(ms) else OwedArgs(s, ms[0].cmd) + WireAll(ms[1..])
  }

  lemma FirstByte(m: Message)
    requires Sent(m)
    ensures Wire(m) != [] && (Wire(m)[0] == 42 <==> m.Bulk?)
  {
    if m.Line? {
      SpacesAre(m.front);
      if m.front == 0 && m.words != [] {
        var w := m.words[0];
        assert Plain(w.arg);
        assert Wire(m)[0] == w.arg[0];
      }
    }
  }

  lemma FitsInt32(v: int)
    requires -0x8000_0000 <= v < 0x8000_0000
    ensures ToInt32(v) == v
  {
  }

  /** At the start of a command: its header is cut, or it is read and the arguments follow. */
  lemma StartStream(cmd: Command, tail: seq<byte>, buf: seq<byte>, rest: seq<byte>)
    requires Sendable(cmd) && buf != [] && buf + rest == Encode(cmd) + tail
    ensures var h := |Header(42, |cmd|)|;
      if |buf| < h then StrStr(buf) == None && rest != []
      else
        && StrStr(buf) == Some(h - 2)
        && ToInt32(Strtol(buf[1..]).value) == |cmd|
        && buf[h..] + rest == EncodeArgs(cmd) + tail
  {
    hide Header, StrStr, Strtol, EncodeArgs, ToInt32;
    FitsInt32(|cmd|);
    assert buf + rest == Header(42, |cmd|) + (EncodeArgs(cmd) + tail);
    SplitHeader(42, |cmd|, EncodeArgs(cmd) + tail, buf, rest);
  }

  /** What one parse does at the requests `ms`: it takes the first of them whole, or waits with nothing lost. */
  predicate Parses(p: Resp.Step, rest: seq<byte>, ms: seq<Message>)
    requires ms != []
  {
    || (p.status.Ready? && p.state.argv == ArgsOf(ms[0]) && !p.state.closing && p.state.buf + rest == WireAll(ms[1..]))
    || (p.status.NeedMore? && rest != [] && Receiving(p.state, ms) && p.state.buf + rest == Owed(p.state, ms))
  }

  lemma BulkStream(s: State, rest: seq<byte>, ms: seq<Message>)
    requires Receiving(s, ms) && s.buf != [] && ms != [] && ms[0].Bulk? && s.multibulklen == 0
    requires s.buf[0] == 42 && s.buf + rest == WireAll(ms)
    ensures Resumable(s) && Parses(ParseRequest(s), rest, ms)
  {
    hide ParseArgs, StrStr, Strtol, Header, EncodeArgs, OwedArgs;
    var cmd := ms[0].cmd;
    var tail := WireAll(ms[1..]);
    assert Sendable(cmd) by { assert Sent(ms[0]); }
    StartStream(cmd, tail, s.buf, rest);
    var h := |Header(42, |cmd|)|;
    if |s.buf| >= h {
      var t := Typed(s).(buf := s.buf[h..], multibulklen := |cmd|);
      OwedAtHeader(t, cmd);
      assert cmd[0..] == cmd;
      ArgsStream(t, rest, cmd, tail);
      assert ParseRequest(s) == ParseArgs(t);
    }
  }

  lemma LineStream(s: State, rest: seq<byte>, ms: seq<Message>)
    requires Receiving(s, ms) && s.buf != [] && ms != [] && ms[0].Line? && s.multibulklen == 0
    requires s.buf[0] != 42 && s.buf + rest == WireAll(ms)
    ensures Resumable(s) && Parses(ParseRequest(s), rest, ms)
  {
    hide StrStr, Words, Spaces, Spell, Spaced, ParseMultibulk, ParseInline, AllSent, Quiet, ArgsOf, WireAll;
    var front, words := ms[0].front, ms[0].words;
    var tail := WireAll(ms[1..]);
    LineFirst(ms);
    var x := Spaces(front) + Spell(words);
    LineQuiet(front, words);
    SplitLine(x, tail, s.buf, rest);
    LineWords(front, words);
    var t := Typed(s);
    ParseLine(t, x);
    assert ParseRequest(s) == ParseInline(t);
  }

  lemma LineFirst(ms: seq<Message>)
    requires AllSent(ms) && ms != [] && ms[0].Line?
    ensures Spaced(ms[0].words)
    ensures WireAll(ms) == (Spaces(ms[0].front) + Spell(ms[0].words) + CRLF) + WireAll(ms[1..])
  {
    hide Spaced, Spaces, Spell;
    assert Sent(ms[0]);
  }

  lemma ParseLine(s: State, x: seq<byte>)
    requires StrStr(s.buf) == None || (StrStr(s.buf) == Some(|x|) && s.buf[..|x|] == x)
    ensures ParseInline(s) ==
      if StrStr(s.buf) == None then Resp.Step(NeedMore, s)
      else Resp.Step(Ready, s.(buf := s.buf[|x| + 2..], argv := Words(x)))
  {
    hide StrStr, Words;
  }

  lemma MiddleStream(s: State, rest: seq<byte>, ms: seq<Message>)
    requires Receiving(s, ms) && s.multibulklen > 0 && s.buf + rest == Owed(s, ms)
    ensures ms != [] && Resumable(s) && (s.buf != [] ==> Parses(ParseRequest(s), rest, ms))
  {
    hide ParseArgs, OwedArgs, WireAll;
    assert Sendable(ms[0].cmd) by { assert Sent(ms[0]); }
    ArgsStream(s, rest, ms[0].cmd, WireAll(ms[1..]));
  }

  /** One parse: either the next request comes out whole, or the bytes run out and the parser can go on from there. */
  lemma RequestStream(s: State, rest: seq<byte>, ms: seq<Message>)
    requires Receiving(s, ms) && s.buf != [] && s.buf + rest == Owed(s, ms)
    ensures ms != [] && Resumable(s) && Parses(ParseRequest(s), rest, ms)
  {
    hide ParseRequest, Parses, Wire, Sent, Partly;
    if s.multibulklen == 0 {
      assert |s.buf + rest| > 0;
      FirstByte(ms[0]);
      assert s.buf[0] == (s.buf + rest)[0] == Wire(ms[0])[0];
      if ms[0].Bulk? {
        BulkStream(s, rest, ms);
      } else {
        LineStream(s, rest, ms);
      }
    } else {
      Halfway(s, ms);
      MiddleStream(s, rest, ms);
    }
  }

  lemma Halfway(s: State, ms: seq<Message>)
    requires Receiving(s, ms) && s.multibulklen != 0
    ensures s.multibulklen > 0
  {
  }

  lemma BetweenRequests(s: State, ms: seq<Message>)
    requires Receiving(s, ms)
    ensures Resumable(s)
  {
  }

  /** Serving a buffer dispatches a front part of the requests and is then ready for the rest of the stream. */
  lemma {:induction false} ServeStream(s: State, rest: seq<byte>, ms: seq<Message>) returns (n: nat)
    requires Receiving(s, ms) && s.buf + rest == Owed(s, ms)
    ensures Resumable(s) && n <= |ms|
    ensures var r := Serve(s);
      && (r.status.Ready? || r.status.NeedMore?)
      && r.dispatched == Requests(ms[..n])
      && Receiving(r.state, ms[n..]) && r.state.buf + rest == Owed(r.state, ms[n..])
      && (rest == [] ==> r.state.buf == [])
    decreases |s.buf|
  {
    hide ParseRequest, WireAll, OwedArgs, Sent, ArgsOf, Partly;
    BetweenRequests(s, ms);
    n := 0;
    assert ms[0..] == ms;
    if s.buf != [] {
      RequestStream(s, rest, ms);
      var p := ParseRequest(s);
      if p.status.Ready? {
        var t := Reset(p.state);
        var others := ms[1..];
        var m := ServeStream(t, rest, others);
        n := m + 1;
        assert others[m..] == ms[n..];
        assert ms[..n][0] == ms[0] && ms[..n][1..] == others[..m];
      }
    }
  }

  lemma {:induction false} RequestsAppend(a: seq<Message>, b: seq<Message>)
    ensures Requests(a + b) == Requests(a) + Requests(b)
  {
    hide ArgsOf;
    if a == [] {
      assert a + b == b;
    } else {
      assert (a + b)[1..] == a[1..] + b;
      RequestsAppend(a[1..], b);
    }
  }

  lemma {:induction false} FeedStream(s: State, chunks: seq<seq<byte>>, ms: seq<Message>)
    requires Receiving(s, ms) && s.buf + Flatten(chunks) == Owed(s, ms)
    requires chunks == [] ==> s.buf == []
    ensures Resumable(s)
    ensures var r := Feed(s, chunks);
      && r.dispatched == Requests(ms) && r.state.buf == [] && Receiving(r.state, [])
      && !r.status.Malformed? && !r.status.Stray?
    decreases |chunks|
  {
    hide WireAll, OwedArgs, Sent, Serve, Flatten, Requests, Partly;
    BetweenRequests(s, ms);
    if chunks == [] {
      NothingOwed(s, ms);
    } else {
      var t := s.(buf := s.buf + chunks[0]);
      var pending := Flatten(chunks[1..]);
      FlattenNext(chunks);
      assert t.buf + pending == s.buf + Flatten(chunks);
      MoreBytes(s, chunks[0], ms);
      var n := ServeStream(t, pending, ms);
      var r := Serve(t);
      FlattenNothing(chunks[1..]);
      FeedStream(r.state, chunks[1..], ms[n..]);
      RequestsAppend(ms[..n], ms[n..]);
      assert ms[..n] + ms[n..] == ms;
    }
  }

  lemma MoreBytes(s: State, more: seq<byte>, ms: seq<Message>)
    requires Receiving(s, ms)
    ensures var t := s.(buf := s.buf + more); Receiving(t, ms) && Owed(t, ms) == Owed(s, ms)
  {
    hide Sent;
  }

  lemma FlattenNext(chunks: seq<seq<byte>>)
    requires chunks != []
    ensures Flatten(chunks) == chunks[0] + Flatten(chunks[1..])
  {
  }

  lemma FlattenNothing(chunks: seq<seq<byte>>)
    ensures chunks == [] ==> Flatten(chunks) == []
  {
  }

  lemma NothingOwed(s: State, ms: seq<Message>)
    requires Receiving(s, ms) && s.buf == [] && Flatten([]) == Owed(s, ms)
    ensures ms == [] && Requests(ms) == [] && s.multibulklen == 0
  {
    hide Sent;
    if ms != [] {
      if s.multibulklen == 0 {
        FirstByte(ms[0]);
      } else {
        SomeArgsOwed(s, ms[0].cmd);
      }
      assert false;
    }
  }

  lemma SomeArgsOwed(s: State, cmd: Command)
    requires Partly(s, cmd)
    ensures OwedArgs(s, cmd) != []
  {
  }

  /**
    * Whatever way the bytes of a list of requests are cut into reads, exactly these requests are dispatched, word for
    * word and in order, and the parser ends in its initial state with an empty buffer.
    */
  lemma EveryCutDispatches(ms: seq<Message>, chunks: seq<seq<byte>>)
    requires AllSent(ms) && Flatten(chunks) == WireAll(ms)
    ensures Feed(FRESH, chunks).dispatched == Requests(ms) && Feed(FRESH, chunks).state == FRESH
    ensures !Feed(FRESH, chunks).status.Malformed? && !Feed(FRESH, chunks).status.Stray?
  {
    hide Feed, Flatten, WireAll, Sent;
    FeedStream(FRESH, chunks, ms);
  }

  function Bulks(cmds: seq<Command>): seq<Message> {
    if cmds == [] then [] else [Bulk(cmds[0])] + Bulks(cmds[1..])
  }

  lemma {:induction false} BulksAreCommands(cmds: seq<Command>)
    requires AllSendable(cmds)
    ensures AllSent(Bulks(cmds)) && WireAll(Bulks(cmds)) == EncodeAll(cmds) && Requests(Bulks(cmds)) == cmds
  {
    hide Encode;
    if cmds != [] {
      BulksAreCommands(cmds[1..]);
      assert Sendable(cmds[0]);
      assert Bulks(cmds)[1..] == Bulks(cmds[1..]);
    }
  }

  /** For a list of counted commands alone. */
  lemma EveryCutDispatchesCommands(cmds: seq<Command>, chunks: seq<seq<byte>>)
    requires AllSendable(cmds) && Flatten(chunks) == EncodeAll(cmds)
    ensures Feed(FRESH, chunks).dispatched == cmds && Feed(FRESH, chunks).state == FRESH
    ensures !Feed(FRESH, chunks).status.Malformed? && !Feed(FRESH, chunks).status.Stray?
  {
    hide Feed, Flatten, WireAll, AllSent, AllSendable, EncodeAll, Bulks, Requests;
    BulksAreCommands(cmds);
    EveryCutDispatches(Bulks(cmds), chunks);
  }
}
