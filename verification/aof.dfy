/**
  * The append-only file of a running server: feeding it, flushing it, replacing it by a background rewrite, and
  * switching it on and off.
  */
module Aof {
  import opened Bytes
  import opened Resp
  import opened AofLoad
  import opened AofReplay
  import Decimal
  import RdbFormat

  /**
    * live: the dataset in memory. file and aofbuf: what is on disk, and what is to be written next. child: the file
    * that the rewriting child produces from the dataset of the fork. bgrewritebuf: what was fed since then. exited: the
    * server has given up.
    */
  datatype Log = Log(live: Dataset, appendonly: bool, appendfd: Descriptor, file: seq<byte>, aofbuf: seq<byte>,
                     appendseldb: int, child: Option<seq<byte>>, bgrewritebuf: seq<byte>, exited: bool)

  /** The descriptor of the file: -1, or that of a file that has been closed, or that of the open file. */
  datatype Descriptor = Missing | Stale | Open

  /** An empty server whose log is on or off. */
  function Empty(appendonly: bool): Log {
    Log(map[], appendonly, if appendonly then Open else Missing, [], [], -1, None, [], false)
  }

  // ----- The steps -----

  /** What one executed command adds to the log. */
  function Record(seldb: int, db: int, cmd: Command): seq<byte> {
    (if db != seldb then Encode(Selecting(db)) else []) + Encode(cmd)
  }

  function RecordCommands(seldb: int, db: int, cmd: Command): seq<Command> {
    (if db != seldb then [Selecting(db)] else []) + [cmd]
  }

  function Fed(s: Log, db: int, cmd: Command): Log {
    var buf := Record(s.appendseldb, db, cmd);
    s.(appendseldb := db, aofbuf := s.aofbuf + buf,
       bgrewritebuf := if s.child.Some? then s.bgrewritebuf + buf else s.bgrewritebuf)
  }

  /** A command that changes the dataset is fed to the log, if that is on. */
  function Executed(w: World, s: Log, db: int, cmd: Command): Log {
    var t := s.(live := w.exec(db, s.live, cmd));
    if s.appendonly then Fed(t, db, cmd) else t
  }

  /** The server exits if there is something to write and it cannot be written. */
  function Flush(s: Log): Log {
    if s.aofbuf == [] then s
    else if s.appendfd != Open then s.(exited := true)
    else s.(file := s.file + s.aofbuf, aofbuf := [])
  }

  /** Forks a child, unless there is one or fork fails. */
  function StartRewrite(s: Log, dbs: seq<Entries>, forked: bool): Log {
    if s.child.Some? || !forked then s else s.(child := Some(EncodeAll(RewriteCommands(dbs))), appendseldb := -1)
  }

  /** The child is gone. `installed` says that it succeeded and that its file was completed and renamed. */
  function RewriteDone(s: Log, installed: bool): Log
    requires s.child.Some?
  {
    var t := if !installed then s else s.(file := s.child.value + s.bgrewritebuf);
    var u := if installed && s.appendfd != Missing then t.(appendfd := Open, appendseldb := -1) else t;
    u.(child := None, bgrewritebuf := [])
  }

  /** Switching the log off. The rewriting child lives on; its differences are dropped if a snapshot was being saved. */
  function Stop(s: Log, saving: bool): Log {
    if !s.appendonly then s
    else
      var t := Flush(s);
      if t.exited then t
      else t.(appendonly := false, appendfd := Missing, appendseldb := -1,
              bgrewritebuf := if saving then [] else s.bgrewritebuf)
  }

  /**
    * Switching it on begins with a rewrite, and is refused if that cannot be started. It is refused as well if the file
    * cannot be opened, but then it stays on.
    */
  function Start(s: Log, dbs: seq<Entries>, found: bool, forked: bool): Log {
    if s.appendonly then s
    else if !found then s.(appendonly := true, appendfd := Missing)
    else if s.child.Some? || !forked then s.(appendfd := Stale)
    else StartRewrite(s.(appendonly := true, appendfd := Open), dbs, true)
  }

  // ----- What the log is for -----

  function CmdsIn(w: World, bytes: seq<byte>): seq<Command> {
    ReadAll(w.known, bytes).cmds
  }

  predicate Readable(w: World, bytes: seq<byte>) {
    ReadAll(w.known, bytes).outcome == Complete
  }

  predicate OpenIn(w: World, bytes: seq<byte>) {
    OpenAfter(CmdsIn(w, bytes), false)
  }

  /** Executing `bytes` gives the dataset, and leaves the database selected that the next command is recorded for. */
  ghost predicate Rebuilds(w: World, bytes: seq<byte>, live: Dataset, seldb: int) {
    var c := Replay(w, START, CmdsIn(w, bytes));
    Readable(w, bytes) && c.data == live && (seldb != -1 ==> c.sel == seldb)
  }

  /**
    * Which logs are to be relied upon: the one on disk and in the buffer, and the file that a rewrite is about to
    * install.
    */
  datatype Trust = Trust(log: bool, child: bool)

  /** A log, what can be relied upon, and whether the server is between a MULTI and its EXEC. */
  datatype Moment = Moment(log: Log, trust: Trust, open: bool)

  ghost predicate Faithful(w: World, bytes: seq<byte>, m: Moment) {
    Rebuilds(w, bytes, m.log.live, m.log.appendseldb) && (OpenIn(w, bytes) ==> m.open)
  }

  predicate EndsWith<T(==)>(a: seq<T>, b: seq<T>) {
    |b| <= |a| && a[|a| - |b|..] == b
  }

  /** Since the last flush or the fork, whichever was later, both buffers got the same. */
  predicate Overlap(a: seq<Command>, b: seq<Command>) {
    EndsWith(a, b) || EndsWith(b, a)
  }

  ghost predicate Sound(w: World, m: Moment) {
    var s := m.log;
    && Readable(w, s.file) && Readable(w, s.aofbuf) && Readable(w, s.bgrewritebuf)
    && (s.child.Some? ==> Readable(w, s.child.value))
    && (m.trust.log ==> Faithful(w, s.file + s.aofbuf, m) && (m.open ==> OpenIn(w, s.file + s.aofbuf)))
    && (m.trust.log ==> !OpenIn(w, s.file))
    && (m.trust.child ==> s.child.Some? && Faithful(w, s.child.value + s.bgrewritebuf, m))
    && (s.child.None? ==> s.bgrewritebuf == [])
    && (!s.appendonly ==> s.aofbuf == [] && s.appendseldb == -1)
    && Overlap(CmdsIn(w, s.aofbuf), CmdsIn(w, s.bgrewritebuf))
  }

  // ----- Executing a command -----

  /** Commands that reach the log: they select no database, and the loader can read and execute them. */
  predicate Loggable(w: World, db: int, cmd: Command) {
    0 <= db < w.dbnum && Accepted(w.known, cmd) && !IsSelect(cmd)
  }

  lemma RecordReads(w: World, seldb: int, db: int, cmd: Command)
    requires Lawful(w) && Loggable(w, db, cmd)
    ensures ReadAll(w.known, Record(seldb, db, cmd)) == Loaded(RecordCommands(seldb, db, cmd), Complete)
  {
    hide Encode, ReadAll, Lawful, Loadable;
    var cmds := RecordCommands(seldb, db, cmd);
    SelectingAccepted(w, db);
    ReadsWhatWasWritten(w.known, cmds);
    EncodeOne([], cmd);
    assert [] + [cmd] == [cmd] && [] + Encode(cmd) == Encode(cmd);
    if db != seldb {
      assert cmds[1..] == [cmd];
    } else {
      assert cmds == [cmd];
    }
  }

  lemma SelectingAccepted(w: World, db: int)
    requires Lawful(w) && 0 <= db < w.dbnum
    ensures Accepted(w.known, Selecting(db))
  {
    hide Decimal.Print;
    Decimal.PrintIsShort(db);
  }

  lemma RecordReplays(w: World, c: Conn, seldb: int, db: int, cmd: Command)
    requires Lawful(w) && Loggable(w, db, cmd) && (seldb != -1 ==> c.sel == seldb)
    ensures Replay(w, c, RecordCommands(seldb, db, cmd)) == Conn(db, w.exec(db, c.data, cmd))
  {
    hide Lawful, Accepted, IsSelect, Replay;
    DbnumFits(w);
    ReplayOne(w, c.(sel := db), cmd);
    if db != seldb {
      SelectApplies(w, c, db);
      ReplayOne(w, c, Selecting(db));
      ReplayAppend(w, c, [Selecting(db)], [cmd]);
    } else {
      assert [] + [cmd] == [cmd];
    }
  }

  lemma RecordOpens(seldb: int, db: int, cmd: Command, open: bool)
    ensures OpenAfter(RecordCommands(seldb, db, cmd), open) == Opens(NameOf(cmd), open)
  {
    hide OpenAfter;
    OpenAfterOne(cmd, open);
    if db != seldb {
      OpenAfterOne(Selecting(db), open);
      OpenAfterAppend([Selecting(db)], [cmd], open);
    } else {
      assert [] + [cmd] == [cmd];
    }
  }

  /** Recording a command keeps a log faithful, whatever database was selected before. */
  lemma RecordKeeps(w: World, bytes: seq<byte>, live: Dataset, seldb: int, db: int, cmd: Command)
    requires Lawful(w) && Loggable(w, db, cmd) && Rebuilds(w, bytes, live, seldb)
    ensures var all := bytes + Record(seldb, db, cmd);
      Rebuilds(w, all, w.exec(db, live, cmd), db) && OpenIn(w, all) == Opens(NameOf(cmd), OpenIn(w, bytes))
  {
    hide Lawful, Loggable, Record, RecordCommands, ReadAll, Replay, OpenAfter, Opens;
    RecordReads(w, seldb, db, cmd);
    ReadAllAppend(w.known, bytes, Record(seldb, db, cmd));
    var c := Replay(w, START, CmdsIn(w, bytes));
    ReplayAppend(w, START, CmdsIn(w, bytes), RecordCommands(seldb, db, cmd));
    RecordReplays(w, c, seldb, db, cmd);
    OpenAfterAppend(CmdsIn(w, bytes), RecordCommands(seldb, db, cmd), false);
    RecordOpens(seldb, db, cmd, OpenIn(w, bytes));
  }

  lemma OverlapGrows(a: seq<Command>, b: seq<Command>, c: seq<Command>)
    requires Overlap(a, b)
    ensures Overlap(a + c, b + c) && Overlap(a + c, [])
  {
    if EndsWith(a, b) {
      assert (a + c)[|a| - |b|..] == a[|a| - |b|..] + c;
    } else {
      assert (b + c)[|b| - |a|..] == b[|b| - |a|..] + c;
    }
  }

  /** What can be relied upon after a step; `open` is as before the step. */
  function Relied(s: Log, t: Trust, open: bool, step: Step): Trust {
    match step
    case ExecStep(_, _) => if s.appendonly then t else Trust(false, false)
    case FlushStep => t
    case RewriteStep(_, forked) => t.(child := (s.child.None? && forked) || t.child)
    case DoneStep(installed) => Trust(if installed then t.child && s.aofbuf == [] else t.log, false)
    case StopStep(saving) =>
      if !s.appendonly || Flush(s).exited then t
      else Trust(t.log && !open, t.child && (!saving || s.bgrewritebuf == []))
    case StartStep(_, found, forked) =>
      t.(child := (!s.appendonly && found && s.child.None? && forked) || t.child)
  }

  lemma ExecKeeps(w: World, m: Moment, db: int, cmd: Command)
    requires Lawful(w) && Sound(w, m) && (m.log.appendonly ==> Loggable(w, db, cmd))
    ensures Sound(w, NextMoment(w, m, ExecStep(db, cmd)))
  {
    hide Lawful, Loggable, Record, RecordCommands, ReadAll, Rebuilds, OpenAfter, Overlap, Opens;
    var s := m.log;
    if s.appendonly {
      var buf := Record(s.appendseldb, db, cmd);
      var cmds := RecordCommands(s.appendseldb, db, cmd);
      RecordReads(w, s.appendseldb, db, cmd);
      ReadAllAppend(w.known, s.aofbuf, buf);
      ReadAllAppend(w.known, s.bgrewritebuf, buf);
      OverlapGrows(CmdsIn(w, s.aofbuf), CmdsIn(w, s.bgrewritebuf), cmds);
      OpensMonotone(NameOf(cmd));
      ReadEmpty(w.known);
      if m.trust.log {
        RecordKeeps(w, s.file + s.aofbuf, s.live, s.appendseldb, db, cmd);
        assert s.file + s.aofbuf + buf == s.file + (s.aofbuf + buf);
      }
      if m.trust.child {
        RecordKeeps(w, s.child.value + s.bgrewritebuf, s.live, s.appendseldb, db, cmd);
        assert s.child.value + s.bgrewritebuf + buf == s.child.value + (s.bgrewritebuf + buf);
      }
    }
  }

  lemma OpensMonotone(name: seq<byte>)
    ensures Opens(name, false) ==> Opens(name, true)
  {
  }

  // ----- Flushing, forking, and the end of the child -----

  lemma FlushKeeps(w: World, m: Moment)
    requires Sound(w, m) && !m.open
    ensures Sound(w, NextMoment(w, m, FlushStep))
  {
    hide Rebuilds, ReadAll, OpenAfter;
    var s := m.log;
    ReadAllAppend(w.known, s.file, s.aofbuf);
    ReadEmpty(w.known);
    assert s.file + s.aofbuf + [] == s.file + s.aofbuf;
    NothingOverlaps(CmdsIn(w, s.bgrewritebuf));
  }

  lemma NothingOverlaps(b: seq<Command>)
    ensures Overlap([], b) && Overlap(b, [])
  {
  }

  /** The commands of a rewritten file. */
  predicate Plain(cmd: Command) {
    cmd != [] && (cmd[0] == SELECT || cmd[0] == SET || cmd[0] == RPUSH || cmd[0] == SADD || cmd[0] == HSET)
  }

  lemma {:induction false} EntriesArePlain(es: Entries)
    ensures forall k :: 0 <= k < |AllEntryCommands(es)| ==> Plain(AllEntryCommands(es)[k])
    decreases |es|
  {
    hide RdbFormat.TextOf;
    if es != [] {
      EntriesArePlain(es[..|es| - 1]);
    }
  }

  lemma {:induction false} RewriteIsPlain(dbs: seq<Entries>)
    ensures forall k :: 0 <= k < |RewriteCommands(dbs)| ==> Plain(RewriteCommands(dbs)[k])
    decreases |dbs|
  {
    hide AllEntryCommands;
    if dbs != [] {
      RewriteIsPlain(dbs[..|dbs| - 1]);
      EntriesArePlain(dbs[|dbs| - 1]);
    }
  }

  lemma {:induction false} PlainOpensNothing(cmds: seq<Command>)
    requires forall k :: 0 <= k < |cmds| ==> Plain(cmds[k])
    ensures !OpenAfter(cmds, false)
    decreases |cmds|
  {
    if cmds != [] {
      assert Plain(cmds[0]);
      PlainOpensNothing(cmds[1..]);
    }
  }

  /** The commands that a rewrite emits are within the loader's types. */
  predicate RewriteLoadable(dbs: seq<Entries>) {
    forall k :: 0 <= k < |RewriteCommands(dbs)| ==> Loadable(RewriteCommands(dbs)[k])
  }

  /** The child's file rebuilds the dataset of the fork, and has no MULTI. */
  lemma ChildRebuilds(w: World, dbs: seq<Entries>)
    requires Lawful(w) && ValidDbs(w, dbs) && RewriteLoadable(dbs)
    ensures var bytes := EncodeAll(RewriteCommands(dbs));
      Rebuilds(w, bytes, DataOf(dbs), -1) && !OpenIn(w, bytes)
  {
    hide ValidDbs, ReadAll, DataOf, Replay, EncodeAll, RewriteCommands, OpenAfter, Loadable;
    var cmds := RewriteCommands(dbs);
    RewriteIsPlain(dbs);
    PlainOpensNothing(cmds);
    forall k | 0 <= k < |cmds| ensures Accepted(w.known, cmds[k]) {
      assert Plain(cmds[k]);
    }
    ReadsWhatWasWritten(w.known, cmds);
    RewriteRebuilds(w, dbs);
  }

  ghost predicate Snapshot(w: World, dbs: seq<Entries>, live: Dataset) {
    ValidDbs(w, dbs) && RewriteLoadable(dbs) && DataOf(dbs) == live
  }

  lemma RewriteKeeps(w: World, m: Moment, dbs: seq<Entries>, forked: bool)
    requires Lawful(w) && Sound(w, m) && Snapshot(w, dbs, m.log.live)
    ensures Sound(w, NextMoment(w, m, RewriteStep(dbs, forked)))
  {
    hide Lawful, ValidDbs, RewriteLoadable, ReadAll, DataOf, Replay, EncodeAll, RewriteCommands, OpenAfter, Overlap;
    if m.log.child.None? && forked {
      ChildRebuilds(w, dbs);
      var bytes := EncodeAll(RewriteCommands(dbs));
      assert bytes + [] == bytes;
    }
  }

  lemma StartKeeps(w: World, m: Moment, dbs: seq<Entries>, found: bool, forked: bool)
    requires Lawful(w) && Sound(w, m) && Snapshot(w, dbs, m.log.live)
    ensures Sound(w, NextMoment(w, m, StartStep(dbs, found, forked)))
  {
    hide Lawful, Snapshot;
    var s := m.log;
    if !s.appendonly {
      var on := found && (s.child.Some? || !forked);
      var fd := if !found then Missing else if on then Stale else Open;
      var m' := m.(log := s.(appendonly := !on, appendfd := fd));
      SwitchedKeeps(w, m, m');
      if found && s.child.None? && forked {
        RewriteKeeps(w, m', dbs, true);
      }
    }
  }

  lemma SwitchedKeeps(w: World, m: Moment, m': Moment)
    requires Sound(w, m) && !m.log.appendonly
    requires m' == m.(log := m.log.(appendonly := m'.log.appendonly, appendfd := m'.log.appendfd))
    ensures Sound(w, m')
  {
    hide Replay, ReadAll, OpenAfter, Overlap;
  }

  lemma StopKeeps(w: World, m: Moment, saving: bool)
    requires Sound(w, m) && !m.log.exited
    ensures Sound(w, NextMoment(w, m, StopStep(saving)))
  {
    hide Replay, ReadAll, OpenAfter;
    var s := m.log;
    if s.appendonly {
      ReadAllAppend(w.known, s.file, s.aofbuf);
      ReadEmpty(w.known);
      assert s.file + s.aofbuf + [] == s.file + s.aofbuf;
      NothingOverlaps(CmdsIn(w, s.bgrewritebuf));
      NothingOverlaps([]);
    }
  }

  /** A log that can be relied upon and is switched off loads exactly if no MULTI is open in it. */
  lemma StoppedLoads(w: World, m: Moment, saving: bool)
    requires Sound(w, m) && m.trust.log && m.log.appendonly && !Stop(m.log, saving).exited
    ensures var r := Load(w.known, Stop(m.log, saving).file);
      (r.outcome == Complete <==> !m.open) && Replay(w, START, r.cmds).data == m.log.live
  {
    hide Replay, ReadAll, OpenAfter;
    var s := m.log;
    assert s.file + [] == s.file;
    assert Stop(s, saving).file == s.file + s.aofbuf;
  }

  /** Installing the child's file; the log is relied upon only if nothing is left in the buffer. */
  lemma DoneKeeps(w: World, m: Moment, installed: bool)
    requires Sound(w, m) && m.log.child.Some? && !m.open
    ensures Sound(w, NextMoment(w, m, DoneStep(installed)))
  {
    hide Replay, ReadAll, OpenAfter;
    var s := m.log;
    ReadAllAppend(w.known, s.child.value, s.bgrewritebuf);
    ReadEmpty(w.known);
    NothingOverlaps(CmdsIn(w, s.aofbuf));
    var bytes := s.child.value + s.bgrewritebuf;
    assert bytes + [] == bytes;
  }

  // ----- Whole runs -----

  datatype Step =
    | ExecStep(db: int, cmd: Command)
    | FlushStep
    | RewriteStep(dbs: seq<Entries>, forked: bool)
    | DoneStep(installed: bool)
    | StopStep(saving: bool)
    | StartStep(dbs: seq<Entries>, found: bool, forked: bool)

  function Next(w: World, s: Log, step: Step): Log {
    match step
    case ExecStep(db, cmd) => Executed(w, s, db, cmd)
    case FlushStep => Flush(s)
    case RewriteStep(dbs, forked) => StartRewrite(s, dbs, forked)
    case DoneStep(installed) => if s.child.Some? then RewriteDone(s, installed) else s
    case StopStep(saving) => Stop(s, saving)
    case StartStep(dbs, found, forked) => Start(s, dbs, found, forked)
  }

  function NextMoment(w: World, m: Moment, step: Step): Moment {
    Moment(Next(w, m.log, step), Relied(m.log, m.trust, m.open, step),
           if step.ExecStep? then Opens(NameOf(step.cmd), m.open) else m.open)
  }

  /** A transaction is executed in one go: the buffer is flushed and the child is waited for between two of them. */
  ghost predicate Possible(w: World, m: Moment, step: Step) {
    !m.log.exited &&
    match step
    case ExecStep(db, cmd) => m.log.appendonly ==> Loggable(w, db, cmd)
    case FlushStep => !m.open
    case RewriteStep(dbs, _) => Snapshot(w, dbs, m.log.live)
    case DoneStep(installed) => m.log.child.Some? && !m.open
    case StopStep(_) => true
    case StartStep(dbs, _, _) => Snapshot(w, dbs, m.log.live)
  }

  ghost predicate AllPossible(w: World, m: Moment, steps: seq<Step>)
    decreases |steps|
  {
    steps == [] || (Possible(w, m, steps[0]) && AllPossible(w, NextMoment(w, m, steps[0]), steps[1..]))
  }

  function After(w: World, m: Moment, steps: seq<Step>): Moment
    decreases |steps|
  {
    if steps == [] then m else After(w, NextMoment(w, m, steps[0]), steps[1..])
  }

  lemma StepKeeps(w: World, m: Moment, step: Step)
    requires Lawful(w) && Sound(w, m) && Possible(w, m, step)
    ensures Sound(w, NextMoment(w, m, step))
  {
    hide Lawful, Sound, NextMoment, Loggable, Snapshot;
    match step
    case ExecStep(db, cmd) => ExecKeeps(w, m, db, cmd);
    case FlushStep => FlushKeeps(w, m);
    case RewriteStep(dbs, forked) => RewriteKeeps(w, m, dbs, forked);
    case DoneStep(installed) => DoneKeeps(w, m, installed);
    case StopStep(saving) => StopKeeps(w, m, saving);
    case StartStep(dbs, found, forked) => StartKeeps(w, m, dbs, found, forked);
  }

  /** After any run, what is relied upon rebuilds the dataset, each command in its own database. */
  lemma {:induction false} EveryRunRebuilds(w: World, m: Moment, steps: seq<Step>)
    requires Lawful(w) && Sound(w, m) && AllPossible(w, m, steps)
    ensures Sound(w, After(w, m, steps))
    decreases |steps|
  {
    hide Lawful, Sound, NextMoment, Possible;
    if steps != [] {
      StepKeeps(w, m, steps[0]);
      EveryRunRebuilds(w, NextMoment(w, m, steps[0]), steps[1..]);
    }
  }

  /** An empty server, whose empty log is right. */
  function Begin(appendonly: bool): Moment {
    Moment(Empty(appendonly), Trust(true, false), false)
  }

  lemma BeginIsSound(w: World, appendonly: bool)
    ensures Sound(w, Begin(appendonly))
  {
    hide OpenAfter;
    NothingOpen(false);
  }

  /** The log stays on, and a rewrite is installed only while the buffer is empty. */
  ghost predicate Careful(w: World, m: Moment, steps: seq<Step>)
    decreases |steps|
  {
    steps == [] ||
    (!steps[0].StopStep? && (steps[0] == DoneStep(true) ==> m.log.aofbuf == []) &&
     Careful(w, NextMoment(w, m, steps[0]), steps[1..]))
  }

  lemma {:induction false} CarefulIsRelied(w: World, m: Moment, steps: seq<Step>)
    requires m.log.appendonly && m.trust.log && (m.log.child.Some? ==> m.trust.child) && Careful(w, m, steps)
    requires m.log.appendfd == Open && !m.log.exited && AllPossible(w, m, steps)
    ensures After(w, m, steps).trust.log && !After(w, m, steps).log.exited
    decreases |steps|
  {
    hide Loggable, Snapshot, RewriteCommands, EncodeAll, Record, Opens;
    if steps != [] {
      CarefulIsRelied(w, NextMoment(w, m, steps[0]), steps[1..]);
    }
  }

  /**
    * A server that begins empty and is careful never exits. At any time the file alone loads, and executing file and
    * buffer gives the dataset in memory; these load exactly if the server is not amid a transaction.
    */
  lemma EveryCarefulRunRebuilds(w: World, steps: seq<Step>)
    requires Lawful(w) && AllPossible(w, Begin(true), steps) && Careful(w, Begin(true), steps)
    ensures var m := After(w, Begin(true), steps); var all := Load(w.known, m.log.file + m.log.aofbuf);
      && !m.log.exited && Load(w.known, m.log.file).outcome == Complete
      && Replay(w, START, all.cmds).data == m.log.live
      && (all.outcome == Complete <==> !m.open)
  {
    hide Lawful, AllPossible, Careful, After, ReadAll, OpenAfter, Replay;
    BeginIsSound(w, true);
    EveryRunRebuilds(w, Begin(true), steps);
    CarefulIsRelied(w, Begin(true), steps);
  }

  lemma {:induction false} AfterLast(w: World, m: Moment, steps: seq<Step>)
    requires steps != []
    ensures After(w, m, steps) == NextMoment(w, After(w, m, steps[..|steps| - 1]), steps[|steps| - 1])
    decreases |steps|
  {
    hide NextMoment;
    var front := steps[..|steps| - 1];
    if |steps| > 1 {
      AfterLast(w, NextMoment(w, m, steps[0]), steps[1..]);
      assert steps[1..][..|steps| - 2] == front[1..];
    } else {
      assert steps[1..] == [] && front == [];
    }
  }

  /** Right after a flush nothing is left to write: the file alone rebuilds the dataset in memory. */
  lemma FlushedFileRebuilds(w: World, steps: seq<Step>)
    requires Lawful(w) && AllPossible(w, Begin(true), steps) && Careful(w, Begin(true), steps)
    requires steps != [] && steps[|steps| - 1] == FlushStep
    ensures var s := After(w, Begin(true), steps).log; var all := Load(w.known, s.file);
      s.aofbuf == [] && all.outcome == Complete && Replay(w, START, all.cmds).data == s.live
  {
    hide Lawful, AllPossible, Careful, After, ReadAll, OpenAfter, Replay;
    EveryCarefulRunRebuilds(w, steps);
    AfterLast(w, Begin(true), steps);
    var s := After(w, Begin(true), steps).log;
    assert s.file + [] == s.file;
  }

  /** While the log is off, a rewrite is a dump of the dataset at the fork, whatever is executed since. */
  lemma {:induction false} DumpRebuilds(w: World, s: Log, dbs: seq<Entries>, execs: seq<Step>, open: bool)
    requires Lawful(w) && Snapshot(w, dbs, s.live) && !s.appendonly && s.child.None? && s.bgrewritebuf == []
    requires forall k :: 0 <= k < |execs| ==> execs[k].ExecStep?
    ensures var m := After(w, Moment(StartRewrite(s, dbs, true), Trust(false, true), open), execs);
      m.log.child.Some? && RewriteDone(m.log, true).aofbuf == s.aofbuf &&
      Load(w.known, RewriteDone(m.log, true).file).outcome == Complete &&
      Replay(w, START, Load(w.known, RewriteDone(m.log, true).file).cmds).data == s.live
  {
    hide Lawful, ReadAll, OpenAfter, Replay, ValidDbs, RewriteLoadable, DataOf, RewriteCommands, EncodeAll, After;
    ChildRebuilds(w, dbs);
    OffKeepsChild(w, Moment(StartRewrite(s, dbs, true), Trust(false, true), open), execs);
    var bytes := EncodeAll(RewriteCommands(dbs));
    assert bytes + [] == bytes;
  }

  lemma {:induction false} OffKeepsChild(w: World, m: Moment, execs: seq<Step>)
    requires !m.log.appendonly && forall k :: 0 <= k < |execs| ==> execs[k].ExecStep?
    ensures After(w, m, execs).log == m.log.(live := After(w, m, execs).log.live)
    decreases |execs|
  {
    hide Opens;
    if execs != [] {
      OffKeepsChild(w, NextMoment(w, m, execs[0]), execs[1..]);
    }
  }

  // ----- A file that cannot be opened -----

  /** A log whose file could not be opened is on all the same: the next flush of any logged command ends the server. */
  lemma FailedOpenIsFatal(w: World, s: Log, dbs: seq<Entries>, forked: bool, db: int, cmd: Command)
    requires !s.appendonly
    ensures Flush(Executed(w, Start(s, dbs, false, forked), db, cmd)).exited
  {
    hide EncodeArgs;
    assert |Encode(cmd)| > 0;
  }

  /** Every attempt to switch the log on finds its file, or the log is on already. */
  ghost predicate AlwaysOpened(w: World, m: Moment, steps: seq<Step>)
    decreases |steps|
  {
    steps == [] ||
    ((steps[0].StartStep? && !m.log.appendonly ==> steps[0].found) &&
     AlwaysOpened(w, NextMoment(w, m, steps[0]), steps[1..]))
  }

  /** Otherwise it never exits: while the log is on the file is open, and while it is off there is nothing to write. */
  lemma {:induction false} NeverExits(w: World, m: Moment, steps: seq<Step>)
    requires AlwaysOpened(w, m, steps) && !m.log.exited
    requires if m.log.appendonly then m.log.appendfd == Open else m.log.aofbuf == []
    ensures !After(w, m, steps).log.exited
    decreases |steps|
  {
    hide RewriteCommands, EncodeAll, Record, Opens;
    if steps != [] {
      NeverExits(w, NextMoment(w, m, steps[0]), steps[1..]);
    }
  }

  // ----- A rewrite that is installed before the buffer is flushed -----

  /**
    * After an installed rewrite the log executes the snapshot's commands and each command fed since the fork once, if
    * and only if the buffer was empty. Otherwise it executes the buffered commands at the end, although the snapshot
    * or the differences have them: those that were fed since the fork end both lists.
    */
  lemma ReplaysOnceExactlyIf(w: World, m: Moment)
    requires Sound(w, m) && m.log.child.Some?
    ensures var s := m.log; var t := RewriteDone(s, true);
      var due := CmdsIn(w, s.child.value) + CmdsIn(w, s.bgrewritebuf);
      var pending := CmdsIn(w, s.aofbuf);
      && CmdsIn(w, t.file + t.aofbuf) == due + pending
      && (EndsWith(pending, CmdsIn(w, s.bgrewritebuf)) || EndsWith(CmdsIn(w, s.bgrewritebuf), pending))
      && (CmdsIn(w, t.file + t.aofbuf) == due <==> s.aofbuf == [])
  {
    hide ReadAll, Rebuilds, OpenAfter;
    var s := m.log;
    var due := CmdsIn(w, s.child.value) + CmdsIn(w, s.bgrewritebuf);
    ReadAllAppend(w.known, s.child.value, s.bgrewritebuf);
    ReadAllAppend(w.known, s.child.value + s.bgrewritebuf, s.aofbuf);
    SomethingRead(w, s.aofbuf);
    assert |due + CmdsIn(w, s.aofbuf)| == |due| + |CmdsIn(w, s.aofbuf)|;
    assert due + [] == due;
  }

  lemma SomethingRead(w: World, bytes: seq<byte>)
    requires Readable(w, bytes)
    ensures CmdsIn(w, bytes) == [] <==> bytes == []
  {
    hide LoadCommand;
  }

  /** Replaying what is still in the buffer once more, on top of a dataset that has it already. */
  ghost predicate PendingIsIdle(w: World, s: Log)
    requires s.child.Some?
  {
    var c := Replay(w, START, CmdsIn(w, s.child.value + s.bgrewritebuf));
    Replay(w, c, CmdsIn(w, s.aofbuf)).data == s.live
  }

  /**
    * As for the dataset: the log is right exactly if replaying the unflushed buffer on top of the dataset changes
    * nothing. The handler does not empty the buffer, although the new file has its commands.
    */
  lemma InstallExactlyIf(w: World, m: Moment)
    requires Sound(w, m) && m.trust.child && !m.open
    ensures var t := RewriteDone(m.log, true);
      Rebuilds(w, t.file + t.aofbuf, t.live, -1) <==> PendingIsIdle(w, m.log)
  {
    hide Replay, ReadAll, OpenAfter;
    var s := m.log;
    var bytes := s.child.value + s.bgrewritebuf;
    ReadAllAppend(w.known, bytes, s.aofbuf);
    ReplayAppend(w, START, CmdsIn(w, bytes), CmdsIn(w, s.aofbuf));
  }

  lemma EmptyBufferIsIdle(w: World, m: Moment)
    requires Sound(w, m) && m.trust.child && m.log.aofbuf == []
    ensures PendingIsIdle(w, m.log)
  {
  }

  /** A push to a list while the rewrite runs, and the rewrite installed before the buffer is flushed. */
  const KEY: Key := [107]
  const ITEM: seq<byte> := [118]
  const PUSH: Command := [RPUSH, KEY, ITEM]

  function PushedTwice(w: World): Log {
    RewriteDone(Executed(w, StartRewrite(Empty(true), [], true), 0, PUSH), true)
  }

  /** The push is in the new file and still in the buffer: what a restart loads has the element twice. */
  lemma PendingPushIsDoubled(w: World)
    requires Lawful(w)
    ensures PushedTwice(w).live == map[(0, KEY) := RdbFormat.ListValue([ITEM])]
    ensures Replay(w, START, CmdsIn(w, PushedTwice(w).file + PushedTwice(w).aofbuf)).data ==
      map[(0, KEY) := RdbFormat.ListValue([ITEM, ITEM])]
    ensures !Rebuilds(w, PushedTwice(w).file + PushedTwice(w).aofbuf, PushedTwice(w).live, -1)
  {
    hide Lawful, ReadAll, Replay, Record, RecordCommands, Loggable;
    var buf := Record(-1, 0, PUSH);
    var t := PushedTwice(w);
    assert t.file == buf && t.aofbuf == buf;
    PushApplies(w);
    RecordReads(w, -1, 0, PUSH);
    ReadAllAppend(w.known, buf, buf);
    var cmds := RecordCommands(-1, 0, PUSH);
    ReplayAppend(w, START, cmds, cmds);
    RecordReplays(w, START, -1, 0, PUSH);
    RecordReplays(w, Conn(0, map[(0, KEY) := RdbFormat.ListValue([ITEM])]), -1, 0, PUSH);
    assert map[(0, KEY) := RdbFormat.ListValue([ITEM])][(0, KEY)].texts != [ITEM, ITEM];
  }

  lemma PushApplies(w: World)
    requires Lawful(w)
    ensures Loggable(w, 0, PUSH)
    ensures w.exec(0, map[], PUSH) == map[(0, KEY) := RdbFormat.ListValue([ITEM])]
    ensures w.exec(0, map[(0, KEY) := RdbFormat.ListValue([ITEM])], PUSH) ==
      map[(0, KEY) := RdbFormat.ListValue([ITEM, ITEM])]
  {
    hide IsSelect, Lawful;
    NamesAreNotSelect();
    var one: Dataset := map[(0, KEY) := RdbFormat.ListValue([ITEM])];
    RpushApplies(w, START, KEY, ITEM);
    RpushApplies(w, Conn(0, one), KEY, ITEM);
    DbnumFits(w);
    PushKnown(w);
    assert START.data[(0, KEY) := RdbFormat.ListValue([] + [ITEM])] == one by { assert [] + [ITEM] == [ITEM]; }
    assert one[(0, KEY)].texts + [ITEM] == [ITEM, ITEM];
    assert one[(0, KEY) := RdbFormat.ListValue([ITEM, ITEM])] == map[(0, KEY) := RdbFormat.ListValue([ITEM, ITEM])];
  }

  lemma PushKnown(w: World)
    requires Lawful(w)
    ensures Accepted(w.known, PUSH)
  {
  }

  // ----- The server -----

  class Server {
    var live: Dataset
    var appendonly: bool
    var appendfd: Descriptor
    var file: seq<byte>
    var aofbuf: seq<byte>
    var appendseldb: int
    var child: Option<seq<byte>>
    var bgrewritebuf: seq<byte>
    var exited: bool

    function View(): Log
      reads this
    {
      Log(live, appendonly, appendfd, file, aofbuf, appendseldb, child, bgrewritebuf, exited)
    }

    constructor (on: bool)
      ensures View() == Empty(on)
    {
      live, appendonly, appendfd := map[], on, if on then Open else Missing;
      file, aofbuf, appendseldb, child, bgrewritebuf, exited := [], [], -1, None, [], false;
    }

    /** Executes a command that changes the dataset. */
    method Call(w: World, db: int, argv: Command)
      modifies this
      ensures View() == Next(w, old(View()), ExecStep(db, argv))
    {
      live := w.exec(db, live, argv);
      if appendonly { FeedAppendOnlyFile(db, argv); }
    }

    method FeedAppendOnlyFile(dictid: int, argv: Command)
      modifies this
      ensures View() == Fed(old(View()), dictid, argv)
    {
      hide Encode, Selecting;
      ghost var seldb := appendseldb;
      var buf := [];
      if dictid != appendseldb {
        buf := CatGenericCommand(buf, Selecting(dictid));
        assert buf == Encode(Selecting(dictid));
        appendseldb := dictid;
      }
      buf := CatGenericCommand(buf, argv);
      assert buf == Record(seldb, dictid, argv);
      aofbuf := aofbuf + buf;
      if child.Some? {
        bgrewritebuf := bgrewritebuf + buf;
      }
    }

    method FlushAppendOnlyFile()
      modifies this
      ensures View() == Flush(old(View()))
    {
      if |aofbuf| == 0 { return; }
      if appendfd != Open {
        exited := true;
        return;
      }
      file := file + aofbuf;
      aofbuf := [];
    }

    /** The child sees the dataset of the moment, database by database in iteration order. */
    method RewriteAppendOnlyFileBackground(dbs: seq<Entries>, forked: bool) returns (ok: bool)
      modifies this
      ensures ok == (old(child).None? && forked) && View() == StartRewrite(old(View()), dbs, forked)
    {
      hide RewriteCommands, EncodeAll;
      if child.Some? { return false; }
      if !forked { return false; }
      var tmpfile := RewriteAppendOnlyFile(dbs);
      child := Some(tmpfile);
      appendseldb := -1;
      ok := true;
    }

    /** `exited`: the child left a file. `written`: the differences could be appended and the file renamed. */
    method BackgroundRewriteDoneHandler(exited: bool, written: bool)
      requires child.Some?
      modifies this
      ensures View() == RewriteDone(old(View()), exited && written)
    {
      if exited && written {
        file := child.value + bgrewritebuf;
        if appendfd != Missing {
          appendfd := Open;
          appendseldb := -1;
        }
      }
      bgrewritebuf := [];
      child := None;
    }

    method StopAppendOnly(saving: bool)
      requires appendonly && !exited
      modifies this
      ensures View() == Stop(old(View()), saving)
    {
      FlushAppendOnlyFile();
      if exited { return; }
      appendfd := Missing;
      appendseldb := -1;
      appendonly := false;
      if saving { bgrewritebuf := []; }
    }

    method StartAppendOnly(dbs: seq<Entries>, found: bool, forked: bool) returns (ok: bool)
      requires !appendonly
      modifies this
      ensures ok == (found && old(child).None? && forked) && View() == Start(old(View()), dbs, found, forked)
    {
      appendonly := true;
      appendfd := if found then Open else Missing;
      if appendfd == Missing { return false; }
      ok := RewriteAppendOnlyFileBackground(dbs, forked);
      if !ok {
        appendonly := false;
        appendfd := Stale;
      }
    }
  }
}
