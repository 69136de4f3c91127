/** The append-only file checker: the longest prefix of a log that is worth keeping. */
module AofCheck {
  import opened Bytes
  import opened Decimal
  import opened Resp
  import opened AofLoad

  // ----- What the checker reads -----

  /** A number line: the value and the length of the line. */
  datatype Number = Number(value: int, length: nat)

  function ReadLong(s: seq<byte>, prefix: byte): (r: Option<Number>)
    ensures r.Some? ==> 0 < r.value.length <= |s|
  {
    if s == [] then None
    else
      var line := Line(s);
      if line[0] != prefix then None
      else
        var p := Strtol(line[1..]);
        if |p.rest| >= 2 && p.rest[0] == 13 && p.rest[1] == 10 then Some(Number(p.value, |line|)) else None
  }

  /** A string and the number of bytes it takes in the file. */
  datatype Piece = Piece(text: seq<byte>, length: nat)

  function ReadString(s: seq<byte>): (r: Option<Piece>)
    ensures r.Some? ==> 0 < r.value.length <= |s|
  {
    match ReadLong(s, 36)
    case None => None
    case Some(n) =>
      var t := s[n.length..];
      if n.value < 0 || n.value + 2 > |t| || t[n.value] != 13 || t[n.value + 1] != 10 then None
      else Some(Piece(t[..n.value], n.length + n.value + 2))
  }

  /** The length of `count` strings in a row. */
  function ReadStrings(s: seq<byte>, count: nat): (r: Option<nat>)
    ensures r.Some? ==> r.value <= |s|
  {
    if count == 0 then Some(0)
    else
      match ReadString(s)
      case None => None
      case Some(p) =>
        match ReadStrings(s[p.length..], count - 1)
        case None => None
        case Some(n) => Some(p.length + n)
  }

  datatype Kind = Multi | Exec | Other

  function KindOf(name: seq<byte>): Kind {
    if SameWord(name, MULTI_WORD) then Multi
    else if SameWord(name, EXEC_WORD) then Exec
    else Other
  }

  /** A whole command at the front of a log. */
  datatype Shape = Shape(kind: Kind, length: nat)

  function ReadCommand(s: seq<byte>): (r: Option<Shape>)
    ensures r.Some? ==> 0 < r.value.length <= |s|
  {
    match ReadLong(s, 42)
    case None => None
    case Some(argc) =>
      var t := s[argc.length..];
      if argc.value <= 0 then Some(Shape(Other, argc.length))
      else
        match ReadStrings(t, argc.value)
        case None => None
        case Some(n) => Some(Shape(KindOf(FirstText(t)), argc.length + n))
  }

  function FirstText(s: seq<byte>): seq<byte> {
    match ReadString(s)
    case None => []
    case Some(p) => p.text
  }

  // ----- What a sound log is -----

  /** Whether a command may follow, given that a MULTI is still open or not. */
  predicate Allowed(kind: Kind, open: bool) {
    match kind
    case Multi => !open
    case Exec => open
    case Other => true
  }

  function After(kind: Kind, open: bool): bool {
    match kind
    case Multi => true
    case Exec => false
    case Other => open
  }

  /** A log of whole commands, where every MULTI is closed by an EXEC before the next one, and every EXEC closes one. */
  predicate Sound(s: seq<byte>, open: bool)
    decreases |s|
  {
    if s == [] then !open
    else
      match ReadCommand(s)
      case None => false
      case Some(c) => Allowed(c.kind, open) && Sound(s[c.length..], After(c.kind, open))
  }

  /** The length of the longest sound prefix. */
  function Longest(s: seq<byte>, open: bool): (r: Option<nat>)
    ensures r.Some? ==> r.value <= |s|
    ensures !open ==> r.Some?
    decreases |s|
  {
    var here: Option<nat> := if open then None else Some(0);
    match ReadCommand(s)
    case None => here
    case Some(c) =>
      if !Allowed(c.kind, open) then here
      else
        match Longest(s[c.length..], After(c.kind, open))
        case None => here
        case Some(n) => Some(c.length + n)
  }

  // ----- A command is recognised by its own bytes alone -----

  lemma {:induction false} LineEndLocal(s: seq<byte>, t: seq<byte>, room: nat)
    requires var n := LineEnd(s, room); n > 0 && s[n - 1] == 10
    ensures LineEnd(s[..LineEnd(s, room)] + t, room) == LineEnd(s, room)
    decreases room
  {
    var n := LineEnd(s, room);
    var u := s[..n] + t;
    if s[0] != 10 {
      LineEndLocal(s[1..], t, room - 1);
      assert u[1..] == s[1..][..n - 1] + t;
    }
  }

  lemma {:induction false} NewlineOnlyAtEnd(s: seq<byte>, room: nat)
    ensures forall k :: 0 <= k < LineEnd(s, room) - 1 ==> s[k] != 10
    decreases room
  {
    if s != [] && room > 0 && s[0] != 10 {
      NewlineOnlyAtEnd(s[1..], room - 1);
      forall k | 0 <= k < LineEnd(s, room) - 1 ensures s[k] != 10 {
        assert k > 0 ==> s[k] == s[1..][k - 1];
      }
    }
  }

  /** An accepted number line ends with its only newline. */
  lemma LineIsComplete(s: seq<byte>, prefix: byte)
    requires ReadLong(s, prefix).Some?
    ensures Line(s) != [] && Line(s)[|Line(s)| - 1] == 10
  {
    hide LineEnd, Strtol;
    var line := Line(s);
    var p := Strtol(line[1..]);
    StrtolSuffix(line[1..]);
    assert p.rest[1] == line[|line| - |p.rest| + 1];
    NewlineOnlyAtEnd(s, 127);
  }

  lemma ReadLongLocal(s: seq<byte>, prefix: byte, t: seq<byte>)
    requires ReadLong(s, prefix).Some?
    ensures ReadLong(s[..ReadLong(s, prefix).value.length] + t, prefix) == ReadLong(s, prefix)
  {
    hide LineEnd, Strtol;
    LineIsComplete(s, prefix);
    LineEndLocal(s, t, 127);
    var u := s[..|Line(s)|] + t;
    assert Line(u) == Line(s);
  }

  lemma ReadStringLocal(s: seq<byte>, t: seq<byte>)
    requires ReadString(s).Some?
    ensures ReadString(s[..ReadString(s).value.length] + t) == ReadString(s)
  {
    hide ReadLong;
    var n := ReadLong(s, 36).value;
    var p := ReadString(s).value;
    var u := s[..p.length] + t;
    var body := s[n.length..p.length] + t;
    ReadLongLocal(s, 36, body);
    assert u == s[..n.length] + body;
    assert u[n.length..] == body;
    assert body[..n.value] == s[n.length..][..n.value];
  }

  lemma {:induction false} ReadStringsLocal(s: seq<byte>, count: nat, t: seq<byte>)
    requires ReadStrings(s, count).Some?
    ensures var u := s[..ReadStrings(s, count).value] + t;
      ReadStrings(u, count) == ReadStrings(s, count) && (count > 0 ==> FirstText(u) == FirstText(s))
    decreases count
  {
    hide ReadString;
    if count > 0 {
      var n := ReadStrings(s, count).value;
      var p := ReadString(s).value;
      var s' := s[p.length..];
      var u := s[..n] + t;
      var u' := s'[..n - p.length] + t;
      assert u == s[..p.length] + u';
      ReadStringLocal(s, u');
      ReadStringsLocal(s', count - 1, t);
      assert u[p.length..] == u';
    }
  }

  /** What follows a whole command does not change how it is read. */
  lemma ReadCommandLocal(s: seq<byte>, t: seq<byte>)
    requires ReadCommand(s).Some?
    ensures ReadCommand(s[..ReadCommand(s).value.length] + t) == ReadCommand(s)
  {
    hide ReadLong, ReadStrings, FirstText, KindOf;
    var argc := ReadLong(s, 42).value;
    var c := ReadCommand(s).value;
    var u := s[..c.length] + t;
    var body := s[argc.length..][..c.length - argc.length] + t;
    assert u == s[..argc.length] + body;
    ReadLongLocal(s, 42, body);
    assert u[argc.length..] == body;
    if argc.value > 0 {
      ReadStringsLocal(s[argc.length..], argc.value, t);
    }
  }

  // ----- The longest sound prefix -----

  lemma ReadCommandOfPrefix(s: seq<byte>, q: nat)
    requires q <= |s|
    ensures var r := ReadCommand(s[..q]);
      r == if ReadCommand(s).Some? && ReadCommand(s).value.length <= q then ReadCommand(s) else None
  {
    hide ReadCommand;
    if ReadCommand(s[..q]).Some? {
      var n := ReadCommand(s[..q]).value.length;
      ReadCommandLocal(s[..q], s[n..]);
      assert s[..q][..n] + s[n..] == s;
    }
    if ReadCommand(s).Some? && ReadCommand(s).value.length <= q {
      var n := ReadCommand(s).value.length;
      ReadCommandLocal(s, s[n..q]);
      assert s[..n] + s[n..q] == s[..q];
    }
  }

  /** A prefix is sound exactly if it is not longer than the longest one and made of the same commands. */
  lemma {:induction false} LongestIsLongest(s: seq<byte>, open: bool)
    ensures Longest(s, open).Some? ==> Sound(s[..Longest(s, open).value], open)
    ensures forall q :: 0 <= q <= |s| && Sound(s[..q], open) ==> Longest(s, open).Some? && q <= Longest(s, open).value
    decreases |s|
  {
    hide ReadCommand, Allowed, After;
    var r := ReadCommand(s);
    if r.Some? && Allowed(r.value.kind, open) {
      var n := r.value.length;
      var open' := After(r.value.kind, open);
      LongestIsLongest(s[n..], open');
      var best := Longest(s[n..], open');
      if best.Some? {
        ReadCommandOfPrefix(s, n + best.value);
        assert s[..n + best.value][n..] == s[n..][..best.value];
      }
    }
    forall q | 0 <= q <= |s| && Sound(s[..q], open)
      ensures Longest(s, open).Some? && q <= Longest(s, open).value
    {
      ReadCommandOfPrefix(s, q);
      if q > 0 {
        var n := r.value.length;
        assert s[..q][n..] == s[n..][..q - n];
      }
    }
  }

  // ----- The program -----

  method ReadArguments(file: seq<byte>, start: nat, argc: int) returns (ok: bool, name: seq<byte>, next: nat)
    requires start <= |file| && argc > 0
    ensures ok <==> ReadStrings(file[start..], argc).Some?
    ensures start <= next <= |file|
    ensures ok ==> next == start + ReadStrings(file[start..], argc).value && name == FirstText(file[start..])
  {
    hide ReadString, ReadStrings;
    next := start;
    name := [];
    ghost var all := ReadStrings(file[start..], argc);
    var i := 0;
    while i < argc
      invariant 0 <= i <= argc && start <= next <= |file|
      invariant i == 0 ==> next == start
      invariant i > 0 ==> name == FirstText(file[start..])
      invariant var r := ReadStrings(file[next..], argc - i);
        if r.None? then all.None? else all == Some(next - start + r.value)
    {
      var s := file[next..];
      StringsStep(s, argc - i);
      var p := ReadString(s);
      if p.None? { return false, name, next; }
      if i == 0 { name := p.value.text; }
      next := next + p.value.length;
      assert file[next..] == s[p.value.length..];
      i := i + 1;
    }
    NoStrings(file[next..]);
    ok := true;
  }

  lemma StringsStep(s: seq<byte>, count: nat)
    requires count > 0
    ensures var p := ReadString(s); var r := ReadStrings(s, count);
      if p.None? then r.None?
      else
        var others := ReadStrings(s[p.value.length..], count - 1);
        if others.None? then r.None? else r == Some(p.value.length + others.value)
  {
    hide ReadString;
  }

  lemma NoStrings(s: seq<byte>)
    ensures ReadStrings(s, 0) == Some(0)
  {
  }

  lemma LongestStep(s: seq<byte>, open: bool)
    ensures var here: Option<nat> := if open then None else Some(0); var r := ReadCommand(s);
      if r.None? || !Allowed(r.value.kind, open) then Longest(s, open) == here
      else
        var rest := Longest(s[r.value.length..], After(r.value.kind, open));
        Longest(s, open) == if rest.None? then here else Some(r.value.length + rest.value)
  {
    hide ReadCommand, Allowed, After;
  }

  /**
    * The position up to which a log is kept: everything before it is sound, and no longer prefix is. The transaction
    * that is open at an error or at the end of the file is cut off as a whole.
    */
  method Process(file: seq<byte>) returns (pos: nat)
    ensures pos <= |file| && Sound(file[..pos], false)
    ensures forall q :: pos < q <= |file| ==> !Sound(file[..q], false)
    ensures Some(pos) == Longest(file, false)
  {
    hide ReadStrings, ReadLong, KindOf, FirstText, Sound, Longest;
    LongestIsLongest(file, false);
    ghost var all := Longest(file, false);
    assert file[0..] == file;
    pos := 0;
    var at: nat := 0;
    var multi := 0;
    while true
      invariant pos <= at <= |file| && 0 <= multi <= 1
      invariant var r := Longest(file[at..], multi == 1);
        all == if r.Some? then Some(at + r.value) else Some(pos)
      decreases |file| - at
    {
      ghost var s := file[at..];
      LongestStep(s, multi == 1);
      if multi == 0 { pos := at; }
      var argc := ReadLong(file[at..], 42);
      if argc.None? { break; }
      var next := at + argc.value.length;
      assert file[next..] == s[argc.value.length..];
      if argc.value.value > 0 {
        var ok, name;
        ok, name, next := ReadArguments(file, next, argc.value.value);
        if !ok { break; }
        var kind := KindOf(name);
        assert ReadCommand(s) == Some(Shape(kind, next - at));
        if kind == Multi {
          multi := multi + 1;
          if multi != 1 { break; }
        } else if kind == Exec {
          multi := multi - 1;
          if multi != 0 { break; }
        }
      } else {
        assert ReadCommand(s) == Some(Shape(Other, next - at));
      }
      assert s[next - at..] == file[next..];
      at := next;
    }
  }

  // ----- Logs that the server wrote -----

  /** A MULTI is closed before the next one, and so on, told from the commands themselves. */
  predicate Balanced(cmds: seq<Command>, open: bool)
    requires forall k :: 0 <= k < |cmds| ==> cmds[k] != []
  {
    if cmds == [] then !open
    else
      var kind := KindOf(cmds[0][0]);
      Allowed(kind, open) && Balanced(cmds[1..], After(kind, open))
  }

  lemma ReadEncodedLong(prefix: byte, n: nat, t: seq<byte>)
    requires n <= LONG_MAX && (prefix == 42 || prefix == 36)
    ensures ReadLong(Header(prefix, n) + t, prefix) == Some(Number(n, |Header(prefix, n)|))
  {
    hide Header, Strtol, Line;
    LineOfHeader(prefix, n, t);
    HeaderValue(prefix, n);
  }

  lemma ReadEncodedString(arg: seq<byte>, t: seq<byte>)
    requires |arg| <= LONG_MAX
    ensures ReadString(EncodeArg(arg) + t) == Some(Piece(arg, |EncodeArg(arg)|))
  {
    hide Header, ReadLong;
    var h := Header(36, |arg|);
    var after := arg + CRLF + t;
    assert EncodeArg(arg) + t == h + after;
    ReadEncodedLong(36, |arg|, after);
    assert (h + after)[|h|..] == after;
    assert after[..|arg|] == arg;
  }

  lemma {:induction false} ReadEncodedStrings(cmd: Command, t: seq<byte>)
    requires forall k :: 0 <= k < |cmd| ==> |cmd[k]| <= LONG_MAX
    ensures ReadStrings(EncodeArgs(cmd) + t, |cmd|) == Some(|EncodeArgs(cmd)|)
    ensures cmd != [] ==> FirstText(EncodeArgs(cmd) + t) == cmd[0]
    decreases |cmd|
  {
    hide ReadString, EncodeArg;
    if cmd != [] {
      var others := EncodeArgs(cmd[1..]) + t;
      var s := EncodeArgs(cmd) + t;
      assert s == EncodeArg(cmd[0]) + others;
      ReadEncodedString(cmd[0], others);
      assert s[|EncodeArg(cmd[0])|..] == others;
      ReadEncodedStrings(cmd[1..], t);
    }
  }

  lemma ReadEncodedCommand(cmd: Command, t: seq<byte>)
    requires Loadable(cmd)
    ensures ReadCommand(Encode(cmd) + t) == Some(Shape(KindOf(cmd[0]), |Encode(cmd)|))
  {
    hide Header, ReadLong, EncodeArgs, ReadStrings, FirstText, KindOf;
    var h := Header(42, |cmd|);
    var after := EncodeArgs(cmd) + t;
    assert Encode(cmd) + t == h + after;
    ReadEncodedLong(42, |cmd|, after);
    assert (h + after)[|h|..] == after;
    ReadEncodedStrings(cmd, t);
  }

  lemma LoadableHasName(cmd: Command)
    requires Loadable(cmd)
    ensures cmd != []
  {
  }

  /** A log that the server wrote is sound exactly if its transactions are balanced. */
  lemma {:induction false} WrittenIsSound(cmds: seq<Command>, open: bool)
    requires forall k :: 0 <= k < |cmds| ==> cmds[k] != [] && Loadable(cmds[k])
    ensures Sound(EncodeAll(cmds), open) <==> Balanced(cmds, open)
    decreases |cmds|
  {
    hide ReadCommand, Encode, Loadable, Allowed, After, KindOf;
    if cmds != [] {
      var tail := EncodeAll(cmds[1..]);
      var s := EncodeAll(cmds);
      assert s == Encode(cmds[0]) + tail;
      ReadEncodedCommand(cmds[0], tail);
      assert s[|Encode(cmds[0])|..] == tail;
      WrittenIsSound(cmds[1..], After(KindOf(cmds[0][0]), open));
    }
  }

  /** Every sound prefix of a written log ends between two commands. */
  lemma {:induction false} SoundPrefixIsWhole(cmds: seq<Command>, q: nat, open: bool) returns (k: nat)
    requires forall i :: 0 <= i < |cmds| ==> Loadable(cmds[i])
    requires q <= |EncodeAll(cmds)| && Sound(EncodeAll(cmds)[..q], open)
    ensures k <= |cmds| && EncodeAll(cmds)[..q] == EncodeAll(cmds[..k])
    decreases |cmds|
  {
    hide ReadCommand, Encode, Loadable, Allowed, After, KindOf;
    var s := EncodeAll(cmds);
    if q == 0 {
      return 0;
    } else {
      var tail := EncodeAll(cmds[1..]);
      var n := |Encode(cmds[0])|;
      assert s == Encode(cmds[0]) + tail;
      ReadEncodedCommand(cmds[0], tail);
      ReadCommandOfPrefix(s, q);
      LoadableHasName(cmds[0]);
      var kind := KindOf(cmds[0][0]);
      assert s[..q][n..] == tail[..q - n];
      var m := SoundPrefixIsWhole(cmds[1..], q - n, After(kind, open));
      k := m + 1;
      assert cmds[..k][1..] == cmds[1..][..m];
      assert s[..q] == Encode(cmds[0]) + tail[..q - n];
    }
  }

  /** The loading client is never inside a MULTI that the checker thinks closed: DISCARD ends one for it only. */
  lemma {:induction false} BalancedCloses(cmds: seq<Command>, open: bool, loaderOpen: bool)
    requires (forall k :: 0 <= k < |cmds| ==> cmds[k] != []) && Balanced(cmds, open) && (loaderOpen ==> open)
    ensures !OpenAfter(cmds, loaderOpen)
    decreases |cmds|
  {
    hide SameWord;
    if cmds != [] {
      BalancedCloses(cmds[1..], After(KindOf(cmds[0][0]), open), Opens(cmds[0][0], loaderOpen));
    }
  }

  /**
    * A log whose end was lost, cut back to the position the checker reports, loads without error, and what it executes
    * is the longest balanced run of commands that were written in full.
    */
  method RepairAndLoad(known: Table, ghost cmds: seq<Command>, file: seq<byte>)
    returns (kept: seq<Command>, outcome: Outcome)
    requires forall k :: 0 <= k < |cmds| ==> cmds[k] != [] && Accepted(known, cmds[k])
    requires file <= EncodeAll(cmds)
    ensures outcome == Complete && kept <= cmds && EncodeAll(kept) <= file && Balanced(kept, false)
    ensures forall k :: 0 <= k <= |cmds| && EncodeAll(cmds[..k]) <= file && Balanced(cmds[..k], false) ==> k <= |kept|
  {
    hide Sound, Load, Longest, EncodeAll, Encode, Loadable, Balanced, OpenAfter;
    var pos := Process(file);
    assert file[..pos] == EncodeAll(cmds)[..pos];
    ghost var n := SoundPrefixIsWhole(cmds, pos, false);
    WrittenIsSound(cmds[..n], false);
    BalancedCloses(cmds[..n], false, false);
    LoadsWhatWasWritten(known, cmds[..n]);
    var ok;
    kept, outcome, ok := LoadAppendOnlyFile(known, file[..pos]);
    forall k | 0 <= k <= |cmds| && EncodeAll(cmds[..k]) <= file && Balanced(cmds[..k], false)
      ensures k <= |kept|
    {
      WrittenIsSound(cmds[..k], false);
      assert EncodeAll(cmds[..k]) == file[..|EncodeAll(cmds[..k])|];
      if k > n {
        LongerIsLonger(cmds, n, k);
      }
    }
  }

  lemma LongerIsLonger(cmds: seq<Command>, n: nat, k: nat)
    requires n < k <= |cmds|
    ensures |EncodeAll(cmds[..n])| < |EncodeAll(cmds[..k])|
  {
    hide Encode;
    EncodeAllAppend(cmds[..n], cmds[n..k]);
    assert cmds[..n] + cmds[n..k] == cmds[..k];
    assert cmds[n..k] != [];
  }

  // ----- Any file that the checker accepts -----

  lemma SameString(s: seq<byte>)
    requires ReadString(s).Some?
    ensures var p := ReadString(s).value; LoadArg(s) == Args([p.text], s[p.length..])
  {
    hide Strtol, Line;
    var n := ReadLong(s, 36).value;
    var t := s[n.length..];
    assert t[n.value + 2..] == s[n.length + n.value + 2..];
  }

  lemma {:induction false} SameStrings(s: seq<byte>, count: nat)
    requires ReadStrings(s, count).Some?
    ensures var r := LoadArgs(s, count); r.Args? && r.rest == s[ReadStrings(s, count).value..]
    ensures count > 0 ==> LoadArgs(s, count).argv[0] == FirstText(s)
    decreases count
  {
    hide LoadArg, ReadString;
    if count > 0 {
      var p := ReadString(s).value;
      SameString(s);
      SameStrings(s[p.length..], count - 1);
    }
  }

  lemma {:induction false} StringsSplit(s: seq<byte>, count: nat, front: nat)
    requires ReadStrings(s, count).Some? && front < count
    ensures ReadStrings(s, front).Some? && ReadString(s[ReadStrings(s, front).value..]).Some?
    decreases front
  {
    hide ReadString;
    if front > 0 {
      var p := ReadString(s).value;
      StringsSplit(s[p.length..], count - 1, front - 1);
      assert s[p.length..][ReadStrings(s[p.length..], front - 1).value..] == s[ReadStrings(s, front).value..];
    }
  }

  /** The count that the header of the next command announces. */
  function CountOf(s: seq<byte>): int
    requires ReadLong(s, 42).Some?
  {
    ReadLong(s, 42).value.value
  }

  /** The name of the next command. */
  function NextName(s: seq<byte>): seq<byte>
    requires ReadLong(s, 42).Some?
  {
    FirstText(s[ReadLong(s, 42).value.length..])
  }

  lemma CommandParts(s: seq<byte>)
    requires ReadCommand(s).Some?
    ensures ReadLong(s, 42).Some?
    ensures CountOf(s) <= 0 ==> ReadCommand(s).value == Shape(Other, ReadLong(s, 42).value.length)
    ensures CountOf(s) > 0 ==>
      var t := s[ReadLong(s, 42).value.length..];
      ReadStrings(t, CountOf(s)).Some? &&
      ReadCommand(s).value == Shape(KindOf(NextName(s)),
        ReadLong(s, 42).value.length + ReadStrings(t, CountOf(s)).value)
  {
    hide ReadLong, ReadStrings, KindOf, FirstText;
  }

  /** How the loader reads the header that the checker read. */
  lemma SameHeader(s: seq<byte>)
    requires ReadLong(s, 42).Some?
    ensures s != []
    ensures var n := ToInt32(CountOf(s)); var t := s[ReadLong(s, 42).value.length..];
      LoadCommand(s) == if n <= 0 then Failed(NoArguments) else LoadArgs(t, n)
  {
    hide Strtol, Line, LoadArgs;
  }

  /** A command with a count that the loader's int can hold is read alike. */
  lemma SameCommand(s: seq<byte>)
    requires ReadCommand(s).Some? && 1 <= CountOf(s) <= INT_MAX
    ensures var r := LoadCommand(s);
      r.Args? && r.rest == s[ReadCommand(s).value.length..] && r.argv[0] == NextName(s)
    ensures ReadCommand(s).value.kind == KindOf(NextName(s))
  {
    hide ReadLong, ReadStrings, KindOf, FirstText, LoadArgs, LoadCommand, ReadCommand;
    CommandParts(s);
    SameHeader(s);
    var h := ReadLong(s, 42).value;
    var t := s[h.length..];
    SameStrings(t, h.value);
    var k := ReadStrings(t, h.value).value;
    assert t[k..] == s[h.length + k..];
  }

  lemma NoCommandHere(s: seq<byte>)
    requires s != [] && s[0] != 42
    ensures LoadCommand(s) == Failed(FormatError)
  {
    hide Strtol, LineEnd;
  }

  lemma NoArgumentHere(s: seq<byte>, n: nat)
    requires n > 0 && (s == [] || s[0] != 36)
    ensures LoadArgs(s, n).Failed?
  {
    hide Strtol, LineEnd;
  }

  lemma FirstBytes(s: seq<byte>)
    ensures ReadString(s).Some? ==> s != [] && s[0] == 36
    ensures ReadCommand(s).Some? ==> s != [] && s[0] == 42
  {
    hide Strtol, LineEnd, ReadStrings, KindOf;
  }

  /** With any other count the loader fails, now or at the next command. */
  lemma OtherCountFails(known: Table, s: seq<byte>)
    requires ReadCommand(s).Some? && !(1 <= CountOf(s) <= INT_MAX)
    requires var rest := s[ReadCommand(s).value.length..]; rest == [] || ReadCommand(rest).Some?
    ensures ReadAll(known, s).outcome != Complete
  {
    hide ReadLong, ReadStrings, KindOf, FirstText, LoadArgs, LoadCommand, ReadCommand, ReadAll;
    CommandParts(s);
    SameHeader(s);
    ReadAllStep(known, s);
    var h := ReadLong(s, 42).value;
    var t := s[h.length..];
    var n := ToInt32(h.value);
    if n > 0 {
      if h.value <= 0 {
        FirstBytes(t);
        NoArgumentHere(t, n);
      } else {
        CutCount(h.value);
        StringsSplit(t, h.value, n);
        SameStrings(t, n);
        var rest := LoadCommand(s).rest;
        FirstBytes(rest);
        NoCommandHere(rest);
        ReadAllStep(known, rest);
      }
    }
  }

  lemma CutCount(v: int)
    requires v > INT_MAX
    ensures ToInt32(v) < v
  {
  }

  /** Every header announces a count that an int can hold, at least 1, and every name is in the command table. */
  ghost predicate Executable(known: Table, s: seq<byte>)
    decreases |s|
  {
    s == [] ||
    (ReadCommand(s).Some? && ReadLong(s, 42).Some? && 1 <= CountOf(s) <= INT_MAX && known(NextName(s)) &&
     Executable(known, s[ReadCommand(s).value.length..]))
  }

  lemma {:induction false} SoundReads(known: Table, s: seq<byte>, open: bool, loaderOpen: bool)
    requires Sound(s, open) && (loaderOpen ==> open)
    ensures ReadAll(known, s).outcome == Complete <==> Executable(known, s)
    ensures ReadAll(known, s).outcome == Complete ==> !OpenAfter(ReadAll(known, s).cmds, loaderOpen)
    decreases |s|
  {
    hide ReadLong, ReadCommand, LoadCommand, SameWord, CountOf, NextName, ReadAll;
    if s == [] {
      ReadEmpty(known);
    } else {
      var c := ReadCommand(s).value;
      var rest := s[c.length..];
      CommandHasHeader(s);
      ReadAllStep(known, s);
      if 1 <= CountOf(s) <= INT_MAX {
        SameCommand(s);
        var name := NextName(s);
        SoundReads(known, rest, After(c.kind, open), Opens(name, loaderOpen));
        if ReadAll(known, s).outcome == Complete {
          var argv := LoadCommand(s).argv;
          assert ReadAll(known, s).cmds[1..] == ReadAll(known, rest).cmds;
        }
      } else {
        NextSound(rest, After(c.kind, open));
        OtherCountFails(known, s);
      }
    }
  }

  lemma CommandHasHeader(s: seq<byte>)
    requires ReadCommand(s).Some?
    ensures ReadLong(s, 42).Some?
  {
    hide ReadLong, ReadStrings, KindOf, FirstText;
  }

  lemma NextSound(s: seq<byte>, open: bool)
    requires Sound(s, open)
    ensures s == [] || ReadCommand(s).Some?
  {
    hide ReadCommand;
  }

  /**
    * When a file that the checker accepts as a whole loads, for any file: exactly if every count is from 1 to the
    * largest int and every name is known. The checker does not look at either.
    */
  lemma AcceptedFileLoads(known: Table, file: seq<byte>)
    requires Sound(file, false)
    ensures Load(known, file).outcome == Complete <==> Executable(known, file)
  {
    hide Sound, ReadAll, OpenAfter, Executable;
    SoundReads(known, file, false, false);
  }

  /** A header that announces no arguments is enough for the checker and too little for the loader. */
  lemma NoArgumentsSlips(known: Table)
    ensures Sound(Header(42, 0), false) && Load(known, Header(42, 0)) == Loaded([], NoArguments)
  {
    hide Header, ReadLong, LoadCommand, ReadCommand, Sound;
    var s := Header(42, 0);
    assert s + [] == s;
    ReadEncodedLong(42, 0, []);
    NoArgumentsShape(s);
    SoundAlone(s, Shape(Other, |s|));
    SameHeader(s);
    ReadAllStep(known, s);
  }

  lemma NoArgumentsShape(s: seq<byte>)
    requires ReadLong(s, 42) == Some(Number(0, |s|))
    ensures ReadCommand(s) == Some(Shape(Other, |s|))
  {
    hide ReadLong, ReadStrings, KindOf, FirstText;
  }

  lemma SoundAlone(s: seq<byte>, c: Shape)
    requires ReadCommand(s) == Some(c) && c.kind == Other && c.length == |s|
    ensures Sound(s, false)
  {
    hide ReadCommand;
    assert s[|s|..] == [];
  }
}
