/** The append-only file: writing one command, and the loop that reads a whole file back. */
module AofLoad {
  import opened Bytes
  import opened Decimal
  import opened Resp

  const INT_MAX: int := 0x7FFF_FFFF

  /** Appends a command to a buffer of the append-only file. */
  method CatGenericCommand(buf: seq<byte>, argv: Command) returns (out: seq<byte>)
    ensures out == buf + Encode(argv)
  {
    hide Header, EncodeArgs;
    out := buf + Header(42, |argv|);
    NoArgs([]);
    var j := 0;
    while j < |argv|
      invariant 0 <= j <= |argv|
      invariant out == buf + Header(42, |argv|) + EncodeArgs(argv[..j])
    {
      EncodeArgsAppend(argv[..j], argv[j]);
      assert argv[..j] + [argv[j]] == argv[..j + 1];
      out := out + Header(36, |argv[j]|);
      out := out + argv[j];
      out := out + CRLF;
      j := j + 1;
    }
    assert argv[..j] == argv;
  }

  // ----- Lines -----

  /** How many bytes fgets takes into a buffer that has room for `room` of them. */
  function LineEnd(s: seq<byte>, room: nat): (n: nat)
    ensures n <= |s| && n <= room && (s != [] && room > 0 ==> n > 0)
  {
    if s == [] || room == 0 then 0
    else if s[0] == 10 then 1
    else 1 + LineEnd(s[1..], room - 1)
  }

  /** The buffer has 128 bytes, one of them for the terminating NUL. */
  function Line(s: seq<byte>): (line: seq<byte>)
    ensures line <= s && (s != [] ==> line != [])
  {
    s[..LineEnd(s, 127)]
  }

  lemma {:induction false} LineEndsAtNewline(x: seq<byte>, t: seq<byte>, room: nat)
    requires |x| < room && forall k :: 0 <= k < |x| ==> x[k] != 10
    ensures LineEnd(x + [10] + t, room) == |x| + 1
    decreases |x|
  {
    var s := x + [10] + t;
    if x != [] {
      assert s[1..] == x[1..] + [10] + t;
      LineEndsAtNewline(x[1..], t, room - 1);
    }
  }

  lemma HeaderIsShort(prefix: byte, n: nat)
    requires n <= LONG_MAX
    ensures |Header(prefix, n)| <= 23
  {
    hide Digits;
    PrintIsShort(n);
  }

  /** fgets takes exactly a header that stands at the front. */
  lemma LineOfHeader(prefix: byte, n: nat, t: seq<byte>)
    requires n <= LONG_MAX && (prefix == 42 || prefix == 36)
    ensures Line(Header(prefix, n) + t) == Header(prefix, n)
  {
    hide Print, Digits, LineEnd;
    var x := [prefix] + Print(n) + [13];
    HeaderShape(prefix, n);
    HeaderIsShort(prefix, n);
    assert Header(prefix, n) == x + [10];
    LineEndsAtNewline(x, t, 127);
  }

  /** The number in a header line. */
  lemma HeaderValue(prefix: byte, n: nat)
    requires n <= LONG_MAX && (prefix == 42 || prefix == 36)
    ensures Strtol(Header(prefix, n)[1..]) == Parsed(n, CRLF)
  {
    hide Strtol, StrStr, Header;
    ReadHeader(prefix, n, []);
    assert Header(prefix, n) + [] == Header(prefix, n);
    assert CRLF + [] == CRLF;
  }

  // ----- Names -----

  function Lower(b: byte): byte {
    if 65 <= b <= 90 then b + 32 else b
  }

  /** Equality as strcasecmp has it, for a word of lower-case letters: the text counts up to its first NUL. */
  predicate SameWord(s: seq<byte>, word: seq<byte>) {
    if s == [] || s[0] == 0 then word == []
    else word != [] && Lower(s[0]) == word[0] && SameWord(s[1..], word[1..])
  }

  const MULTI_WORD: seq<byte> := [109, 117, 108, 116, 105]
  const EXEC_WORD: seq<byte> := [101, 120, 101, 99]
  const DISCARD_WORD: seq<byte> := [100, 105, 115, 99, 97, 114, 100]

  function NameOf(cmd: Command): seq<byte> {
    if cmd == [] then [] else cmd[0]
  }

  /** Whether the loading client is inside a MULTI after a command of that name. */
  predicate Opens(name: seq<byte>, open: bool) {
    if SameWord(name, MULTI_WORD) then true
    else if SameWord(name, EXEC_WORD) || SameWord(name, DISCARD_WORD) then false
    else open
  }

  predicate OpenAfter(cmds: seq<Command>, open: bool)
    decreases |cmds|
  {
    if cmds == [] then open else OpenAfter(cmds[1..], Opens(NameOf(cmds[0]), open))
  }

  lemma {:induction false} OpenAfterAppend(a: seq<Command>, b: seq<Command>, open: bool)
    ensures OpenAfter(a + b, open) == OpenAfter(b, OpenAfter(a, open))
    decreases |a|
  {
    hide Opens;
    if a == [] {
      assert a + b == b;
    } else {
      assert (a + b)[1..] == a[1..] + b;
      OpenAfterAppend(a[1..], b, Opens(NameOf(a[0]), open));
    }
  }

  lemma OpenAfterOne(cmd: Command, open: bool)
    ensures OpenAfter([cmd], open) == Opens(NameOf(cmd), open)
  {
    hide Opens;
    assert [cmd][1..] == [];
  }

  // ----- Loading -----

  /** The command table: which names, in which spelling, it knows. */
  type Table = seq<byte> -> bool

  /**
    * Complete: the end of the file came between two commands and outside of MULTI. In all other cases the server gives
    * up: ReadError, also for an open MULTI; FormatError; UnknownCommand, for a name that is not in the table.
    * NoArguments: a command without arguments, whose name is taken from an array of length zero or less.
    */
  datatype Outcome = Complete | ReadError | FormatError | UnknownCommand | NoArguments

  /** Arguments read, or the reason why not; `rest` is the unread part of the file. */
  datatype Args = Args(argv: Command, rest: seq<byte>) | Failed(why: Outcome)

  function LoadArg(s: seq<byte>): (r: Args)
    ensures r.Args? ==> |r.rest| < |s| && |r.argv| == 1
    ensures r.Failed? ==> r.why != Complete
  {
    if s == [] then Failed(ReadError)
    else
      var line := Line(s);
      if line[0] != 36 then Failed(FormatError)
      else
        var len := Strtol(line[1..]).value;
        var t := s[|line|..];
        if len < 0 || len > |t| || |t| - len < 2 then Failed(FormatError)
        else Args([t[..len]], t[len + 2..])
  }

  function LoadArgs(s: seq<byte>, argc: nat): (r: Args)
    ensures r.Args? ==> |r.rest| <= |s| && |r.argv| == argc
    ensures r.Failed? ==> r.why != Complete
  {
    if argc == 0 then Args([], s)
    else
      match LoadArg(s)
      case Failed(why) => Failed(why)
      case Args(first, t) =>
        match LoadArgs(t, argc - 1)
        case Failed(why) => Failed(why)
        case Args(others, rest) => Args(first + others, rest)
  }

  function LoadCommand(s: seq<byte>): (r: Args)
    requires s != []
    ensures r.Args? ==> |r.rest| < |s| && |r.argv| >= 1
    ensures r.Failed? ==> r.why != Complete
  {
    var line := Line(s);
    if line[0] != 42 then Failed(FormatError)
    else
      var argc := ToInt32(Strtol(line[1..]).value);
      if argc <= 0 then Failed(NoArguments) else LoadArgs(s[|line|..], argc)
  }

  /** The commands that are executed while loading, and how loading ends. */
  datatype Loaded = Loaded(cmds: seq<Command>, outcome: Outcome)

  /** The commands of a file, up to its end or to the first fault. */
  function ReadAll(known: Table, s: seq<byte>): Loaded
    decreases |s|
  {
    if s == [] then Loaded([], Complete)
    else
      match LoadCommand(s)
      case Failed(why) => Loaded([], why)
      case Args(argv, rest) =>
        if !known(argv[0]) then Loaded([], UnknownCommand)
        else
          var r := ReadAll(known, rest);
          Loaded([argv] + r.cmds, r.outcome)
  }

  /** Loading: a file that ends inside a MULTI is refused at its end. */
  function Load(known: Table, s: seq<byte>): Loaded {
    var r := ReadAll(known, s);
    if r.outcome == Complete && OpenAfter(r.cmds, false) then Loaded(r.cmds, ReadError) else r
  }

  /** One argument: its header line, its bytes, and the two bytes behind them. Complete means that it was read. */
  method ReadArgument(file: seq<byte>, start: nat) returns (status: Outcome, arg: seq<byte>, next: nat)
    requires start <= |file|
    ensures next <= |file|
    ensures LoadArg(file[start..]) == if status == Complete then Args([arg], file[next..]) else Failed(status)
    ensures status == Complete ==> next > start
  {
    hide Strtol, Line;
    if start == |file| { return ReadError, [], start; }
    ghost var s := file[start..];
    var line := Line(file[start..]);
    if line[0] != 36 { return FormatError, [], start; }
    var len := Strtol(line[1..]).value;
    var pos := start + |line|;
    var t := file[pos..];
    assert t == s[|line|..];
    if len < 0 || len > |t| || |t| - len < 2 { return FormatError, [], start; }
    assert file[pos + len + 2..] == t[len + 2..];
    return Complete, t[..len], pos + len + 2;
  }

  /** The loop over the arguments of one command, from position `start`. */
  method ReadArguments(file: seq<byte>, start: nat, argc: nat) returns (status: Outcome, argv: Command, next: nat)
    requires start <= |file|
    ensures start <= next <= |file|
    ensures LoadArgs(file[start..], argc) == if status == Complete then Args(argv, file[next..]) else Failed(status)
  {
    hide LoadArg;
    var pos: nat := start;
    argv := [];
    var j := 0;
    while j < argc
      invariant 0 <= j <= argc && start <= pos <= |file|
      invariant LoadArgs(file[start..], argc) ==
        match LoadArgs(file[pos..], argc - j)
        case Failed(why) => Failed(why)
        case Args(others, rest) => Args(argv + others, rest)
    {
      var arg;
      status, arg, next := ReadArgument(file, pos);
      if status != Complete { return status, argv, pos; }
      assert forall others: Command :: argv + ([arg] + others) == argv + [arg] + others;
      argv, pos, j := argv + [arg], next, j + 1;
    }
    assert argv + [] == argv;
    return Complete, argv, pos;
  }

  /**
    * Reads the whole file; `cmds` are the commands given to their implementations on the way. `ok` is whether REDIS_OK
    * is returned: for an empty file it is not, although nothing is wrong, and at any fault the server gives up.
    */
  method LoadAppendOnlyFile(known: Table, file: seq<byte>) returns (cmds: seq<Command>, outcome: Outcome, ok: bool)
    ensures Loaded(cmds, outcome) == Load(known, file)
    ensures ok <==> outcome == Complete && file != []
  {
    hide LoadArgs, Opens, OpenAfter, ReadAll;
    ok := false;
    if |file| == 0 {
      ReadEmpty(known);
      NothingOpen(false);
      return [], Complete, false;
    }
    cmds := [];
    var multi := false;
    var pos: nat := 0;
    assert file[0..] == file;
    NothingOpen(false);
    while pos < |file|
      invariant pos <= |file| && multi == OpenAfter(cmds, false)
      invariant var r := ReadAll(known, file[pos..]); ReadAll(known, file) == Loaded(cmds + r.cmds, r.outcome)
    {
      ghost var s := file[pos..];
      ReadAllStep(known, s);
      var line := Line(file[pos..]);
      if line[0] != 42 {
        assert cmds + [] == cmds;
        return cmds, FormatError, false;
      }
      var argc := ToInt32(Strtol(line[1..]).value);
      assert file[pos + |line|..] == s[|line|..];
      if argc <= 0 {
        assert cmds + [] == cmds;
        return cmds, NoArguments, false;
      }
      var argv, next;
      outcome, argv, next := ReadArguments(file, pos + |line|, argc);
      if outcome != Complete {
        assert cmds + [] == cmds;
        return;
      }
      if !known(argv[0]) {
        assert cmds + [] == cmds;
        return cmds, UnknownCommand, false;
      }
      multi := Opens(argv[0], multi);
      ghost var r := ReadAll(known, file[next..]);
      assert cmds + ([argv] + r.cmds) == cmds + [argv] + r.cmds;
      OpenAfterAppend(cmds, [argv], false);
      OpenAfterOne(argv, OpenAfter(cmds, false));
      cmds, pos := cmds + [argv], next;
    }
    ReadEmpty(known);
    assert file[pos..] == [] && cmds + [] == cmds;
    outcome := if multi then ReadError else Complete;
    ok := !multi;
  }

  lemma ReadAllStep(known: Table, s: seq<byte>)
    requires s != []
    ensures var c := LoadCommand(s);
      ReadAll(known, s) ==
        if c.Failed? then Loaded([], c.why)
        else if !known(c.argv[0]) then Loaded([], UnknownCommand)
        else Loaded([c.argv] + ReadAll(known, c.rest).cmds, ReadAll(known, c.rest).outcome)
  {
    hide LoadCommand;
  }

  lemma ReadEmpty(known: Table)
    ensures ReadAll(known, []) == Loaded([], Complete)
  {
  }

  lemma NothingOpen(open: bool)
    ensures OpenAfter([], open) == open
  {
  }

  // ----- Loading reads what was written -----

  /** What the C types of the loader can hold. */
  predicate Loadable(cmd: Command) {
    1 <= |cmd| <= INT_MAX && forall k :: 0 <= k < |cmd| ==> |cmd[k]| <= LONG_MAX
  }

  lemma LoadEncodedArg(arg: seq<byte>, t: seq<byte>)
    requires |arg| <= LONG_MAX
    ensures LoadArg(EncodeArg(arg) + t) == Args([arg], t)
  {
    hide Header, Strtol, Line;
    var h := Header(36, |arg|);
    var after := arg + CRLF + t;
    var s := h + after;
    assert EncodeArg(arg) + t == s;
    LineOfHeader(36, |arg|, after);
    HeaderValue(36, |arg|);
    assert s[|h|..] == after;
    assert after[..|arg|] == arg && after[|arg| + 2..] == t;
  }

  lemma {:induction false} LoadEncodedArgs(cmd: Command, t: seq<byte>)
    requires forall k :: 0 <= k < |cmd| ==> |cmd[k]| <= LONG_MAX
    ensures LoadArgs(EncodeArgs(cmd) + t, |cmd|) == Args(cmd, t)
    decreases |cmd|
  {
    hide LoadArg, EncodeArg;
    if cmd == [] {
      assert EncodeArgs(cmd) + t == t;
    } else {
      var others := EncodeArgs(cmd[1..]) + t;
      assert EncodeArgs(cmd) + t == EncodeArg(cmd[0]) + others;
      LoadEncodedArg(cmd[0], others);
      LoadEncodedArgs(cmd[1..], t);
      assert [cmd[0]] + cmd[1..] == cmd;
    }
  }

  lemma LoadEncoded(cmd: Command, t: seq<byte>)
    requires Loadable(cmd)
    ensures LoadCommand(Encode(cmd) + t) == Args(cmd, t)
  {
    hide Header, Strtol, Line, EncodeArgs, LoadArgs;
    var h := Header(42, |cmd|);
    var after := EncodeArgs(cmd) + t;
    var s := h + after;
    assert Encode(cmd) + t == s;
    LineOfHeader(42, |cmd|, after);
    HeaderValue(42, |cmd|);
    assert s[|h|..] == after;
    LoadEncodedArgs(cmd, t);
  }

  /** What the loader can read and execute. */
  predicate Accepted(known: Table, cmd: Command) {
    Loadable(cmd) && known(cmd[0])
  }

  lemma {:induction false} ReadsWhatWasWritten(known: Table, cmds: seq<Command>)
    requires forall k :: 0 <= k < |cmds| ==> Accepted(known, cmds[k])
    ensures ReadAll(known, EncodeAll(cmds)) == Loaded(cmds, Complete)
    decreases |cmds|
  {
    hide LoadCommand, Encode, Loadable;
    if cmds != [] {
      assert Accepted(known, cmds[0]);
      LoadEncoded(cmds[0], EncodeAll(cmds[1..]));
      ReadsWhatWasWritten(known, cmds[1..]);
      assert [cmds[0]] + cmds[1..] == cmds;
    }
  }

  /** A file made of whole commands executes exactly these, and loads exactly if no MULTI is left open. */
  lemma LoadsWhatWasWritten(known: Table, cmds: seq<Command>)
    requires forall k :: 0 <= k < |cmds| ==> Accepted(known, cmds[k])
    ensures Load(known, EncodeAll(cmds)).cmds == cmds
    ensures Load(known, EncodeAll(cmds)).outcome == if OpenAfter(cmds, false) then ReadError else Complete
  {
    hide ReadAll, OpenAfter, Accepted;
    ReadsWhatWasWritten(known, cmds);
  }
}
