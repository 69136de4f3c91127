/** Which of the files that the server leaves behind redis-check-aof accepts. */
module AofAccept {
  import opened Bytes
  import opened Resp
  import opened AofLoad
  import opened AofReplay
  import opened Aof
  import AofCheck
  import Decimal
  import RdbFormat

  // ----- The checker's view of a list of commands -----

  function KindOf(cmd: Command): AofCheck.Kind {
    AofCheck.KindOf(NameOf(cmd))
  }

  /** Whether a MULTI is open after the commands; None if one of them is refused. */
  function Scanned(cmds: seq<Command>, open: bool): Option<bool>
    decreases |cmds|
  {
    if cmds == [] then Some(open)
    else if !AofCheck.Allowed(KindOf(cmds[0]), open) then None
    else Scanned(cmds[1..], AofCheck.After(KindOf(cmds[0]), open))
  }

  lemma {:induction false} ScannedIsBalanced(cmds: seq<Command>, open: bool)
    requires forall k :: 0 <= k < |cmds| ==> cmds[k] != []
    ensures AofCheck.Balanced(cmds, open) <==> Scanned(cmds, open) == Some(false)
    decreases |cmds|
  {
    hide AofCheck.KindOf, AofCheck.Allowed, AofCheck.After;
    if cmds != [] {
      ScannedIsBalanced(cmds[1..], AofCheck.After(KindOf(cmds[0]), open));
    }
  }

  lemma {:induction false} ScannedAppend(a: seq<Command>, b: seq<Command>, open: bool)
    ensures var r := Scanned(a, open); Scanned(a + b, open) == if r.None? then None else Scanned(b, r.value)
    decreases |a|
  {
    hide KindOf, AofCheck.Allowed, AofCheck.After;
    if a == [] {
      assert a + b == b;
    } else {
      assert (a + b)[1..] == a[1..] + b;
      if AofCheck.Allowed(KindOf(a[0]), open) {
        ScannedAppend(a[1..], b, AofCheck.After(KindOf(a[0]), open));
      }
    }
  }

  /** What balances behind an open MULTI is refused without it. */
  lemma {:induction false} NotBoth(cmds: seq<Command>)
    requires Scanned(cmds, true) == Some(false)
    ensures Scanned(cmds, false) == None
    decreases |cmds|
  {
    hide KindOf;
    if cmds != [] && KindOf(cmds[0]) == AofCheck.Other {
      NotBoth(cmds[1..]);
    }
  }

  lemma PlainKind(cmd: Command)
    requires Plain(cmd)
    ensures KindOf(cmd) == AofCheck.Other
  {
  }

  lemma {:induction false} PlainScanned(cmds: seq<Command>, open: bool)
    requires forall k :: 0 <= k < |cmds| ==> Plain(cmds[k])
    ensures Scanned(cmds, open) == Some(open)
    decreases |cmds|
  {
    hide KindOf, Plain;
    if cmds != [] {
      PlainKind(cmds[0]);
      PlainScanned(cmds[1..], open);
    }
  }

  lemma LoadableNamed(cmds: seq<Command>)
    requires forall k :: 0 <= k < |cmds| ==> Loadable(cmds[k])
    ensures forall k :: 0 <= k < |cmds| ==> cmds[k] != [] && Loadable(cmds[k])
  {
  }

  /** A file of whole commands is accepted exactly if the scan ends outside of MULTI. */
  lemma AcceptedIsScanned(cmds: seq<Command>)
    requires forall k :: 0 <= k < |cmds| ==> Loadable(cmds[k])
    ensures AofCheck.Sound(EncodeAll(cmds), false) <==> Scanned(cmds, false) == Some(false)
  {
    hide AofCheck.Sound, AofCheck.Balanced, Scanned, EncodeAll, Loadable;
    LoadableNamed(cmds);
    AofCheck.WrittenIsSound(cmds, false);
    ScannedIsBalanced(cmds, false);
  }

  // ----- A rewrite and the differences behind it -----

  /**
    * A rewritten file with the differences appended, where every MULTI and every EXEC of these has its counterpart in
    * the differences or, for a first EXEC, in what came before the fork: the checker accepts it exactly if the fork was
    * not inside a transaction.
    */
  lemma RewriteAcceptedExactlyIf(dbs: seq<Entries>, diffs: seq<Command>, inside: bool)
    requires RewriteLoadable(dbs) && forall k :: 0 <= k < |diffs| ==> diffs[k] != [] && Loadable(diffs[k])
    requires AofCheck.Balanced(diffs, inside)
    ensures AofCheck.Sound(EncodeAll(RewriteCommands(dbs)) + EncodeAll(diffs), false) <==> !inside
  {
    hide AofCheck.Sound, AofCheck.Balanced, EncodeAll, RewriteCommands, Scanned, Loadable;
    var front := RewriteCommands(dbs);
    EncodeAllAppend(front, diffs);
    AcceptedIsScanned(front + diffs);
    RewriteIsPlain(dbs);
    PlainScanned(front, false);
    ScannedAppend(front, diffs, false);
    ScannedIsBalanced(diffs, inside);
    if inside {
      NotBoth(diffs);
    }
  }

  // ----- Bytes that are whole commands -----

  ghost predicate Written(w: World, bytes: seq<byte>) {
    && Readable(w, bytes) && bytes == EncodeAll(CmdsIn(w, bytes))
    && forall k :: 0 <= k < |CmdsIn(w, bytes)| ==> Loadable(CmdsIn(w, bytes)[k])
  }

  lemma WrittenAppend(w: World, a: seq<byte>, b: seq<byte>)
    requires Written(w, a) && Written(w, b)
    ensures Written(w, a + b) && CmdsIn(w, a + b) == CmdsIn(w, a) + CmdsIn(w, b)
  {
    hide ReadAll, EncodeAll, Loadable;
    ReadAllAppend(w.known, a, b);
    EncodeAllAppend(CmdsIn(w, a), CmdsIn(w, b));
  }

  lemma WrittenCommands(w: World, cmds: seq<Command>)
    requires forall k :: 0 <= k < |cmds| ==> Accepted(w.known, cmds[k])
    ensures Written(w, EncodeAll(cmds)) && CmdsIn(w, EncodeAll(cmds)) == cmds
  {
    hide ReadAll, EncodeAll, Loadable;
    ReadsWhatWasWritten(w.known, cmds);
  }

  /** The scan of a log. */
  function Scan(w: World, bytes: seq<byte>): Option<bool> {
    Scanned(CmdsIn(w, bytes), false)
  }

  lemma AcceptedIsScan(w: World, bytes: seq<byte>)
    requires Written(w, bytes)
    ensures AofCheck.Sound(bytes, false) <==> Scan(w, bytes) == Some(false)
  {
    hide ReadAll, EncodeAll, Loadable, Scanned, AofCheck.Sound;
    AcceptedIsScanned(CmdsIn(w, bytes));
  }

  lemma ScanAppend(w: World, a: seq<byte>, b: seq<byte>)
    requires Written(w, a) && Written(w, b)
    ensures Written(w, a + b)
    ensures Scan(w, a + b) == if Scan(w, a).None? then None else Scanned(CmdsIn(w, b), Scan(w, a).value)
  {
    hide Written, CmdsIn, Scanned;
    WrittenAppend(w, a, b);
    ScannedAppend(CmdsIn(w, a), CmdsIn(w, b), false);
  }

  // ----- Runs -----

  /** Whether the newest installed rewrite, and the running one, were forked inside a transaction that is fed. */
  datatype Forks = Forks(log: bool, child: bool)

  function ForksNext(m: Moment, f: Forks, step: Aof.Step): Forks {
    var s := m.log;
    match step
    case RewriteStep(_, forked) => if s.child.None? && forked then f.(child := s.appendonly && m.open) else f
    case DoneStep(installed) => Forks(if installed then f.child else f.log, false)
    case StopStep(saving) => if s.appendonly && saving && !Flush(s).exited then f.(child := false) else f
    case _ => f
  }

  /** MULTI and EXEC come in pairs, DISCARD is not fed, and the log is switched on and off between transactions only. */
  predicate Orderly(m: Moment, step: Aof.Step) {
    match step
    case ExecStep(_, cmd) => AofCheck.Allowed(KindOf(cmd), m.open) && !SameWord(NameOf(cmd), DISCARD_WORD)
    case StopStep(_) => !m.open
    case StartStep(_, _, _) => !m.open
    case _ => true
  }

  predicate AllOrderly(w: World, m: Moment, steps: seq<Aof.Step>)
    decreases |steps|
  {
    steps == [] || (Orderly(m, steps[0]) && AllOrderly(w, NextMoment(w, m, steps[0]), steps[1..]))
  }

  function ForksAfter(w: World, m: Moment, f: Forks, steps: seq<Aof.Step>): Forks
    decreases |steps|
  {
    if steps == [] then f else ForksAfter(w, NextMoment(w, m, steps[0]), ForksNext(m, f, steps[0]), steps[1..])
  }

  /** A log forked inside a transaction is refused from the EXEC of that transaction on. */
  predicate ScanIs(r: Option<bool>, inside: bool, open: bool) {
    if inside then r == None || (r == Some(false) && open) else r == Some(open)
  }

  /** Whether commands are being fed inside a transaction. */
  predicate Feeding(m: Moment) {
    m.log.appendonly && m.open
  }

  ghost predicate LogSeen(w: World, file: seq<byte>, aofbuf: seq<byte>, inside: bool, open: bool) {
    && Written(w, file) && Scan(w, file) == (if inside then None else Some(false))
    && Written(w, aofbuf) && Scan(w, aofbuf) == Some(open)
  }

  ghost predicate ChildSeen(w: World, child: Option<seq<byte>>, diff: seq<byte>, inside: bool, open: bool) {
    && Written(w, diff)
    && match child
       case None => diff == [] && !inside
       case Some(bytes) =>
         Written(w, bytes) && Scan(w, bytes) == Some(false) && ScanIs(Scan(w, bytes + diff), inside, open)
  }

  ghost predicate Seen(w: World, m: Moment, f: Forks) {
    && LogSeen(w, m.log.file, m.log.aofbuf, f.log, Feeding(m))
    && ChildSeen(w, m.log.child, m.log.bgrewritebuf, f.child, Feeding(m))
    && (!m.log.appendonly ==> m.log.aofbuf == [])
  }

  lemma RecordWritten(w: World, seldb: int, db: int, cmd: Command)
    requires Lawful(w) && Loggable(w, db, cmd)
    ensures Written(w, Record(seldb, db, cmd))
    ensures CmdsIn(w, Record(seldb, db, cmd)) == RecordCommands(seldb, db, cmd)
  {
    hide ReadAll, Lawful, Loadable, IsSelect, EncodeAll;
    var cmds := RecordCommands(seldb, db, cmd);
    RecordReads(w, seldb, db, cmd);
    SelectingAccepted(w, db);
    WrittenCommands(w, cmds);
    RecordIsEncoded(seldb, db, cmd);
  }

  lemma RecordIsEncoded(seldb: int, db: int, cmd: Command)
    ensures Record(seldb, db, cmd) == EncodeAll(RecordCommands(seldb, db, cmd))
  {
    hide Encode, EncodeAll;
    EncodeNothing();
    EncodeOne([], cmd);
    assert [] + [cmd] == [cmd] && [] + Encode(cmd) == Encode(cmd);
    if db != seldb {
      EncodeOne([], Selecting(db));
      EncodeOne([Selecting(db)], cmd);
      assert [] + [Selecting(db)] == [Selecting(db)] && [] + Encode(Selecting(db)) == Encode(Selecting(db));
    }
  }

  lemma EncodeNothing()
    ensures EncodeAll([]) == []
  {
  }

  lemma SelectingKind(db: int)
    ensures KindOf(Selecting(db)) == AofCheck.Other
  {
    PlainKind(Selecting(db));
  }

  lemma ScannedOne(cmd: Command, open: bool)
    ensures Scanned([cmd], open) ==
      if AofCheck.Allowed(KindOf(cmd), open) then Some(AofCheck.After(KindOf(cmd), open)) else None
  {
    hide KindOf;
    assert [cmd][1..] == [];
  }

  lemma RecordScanned(seldb: int, db: int, cmd: Command, open: bool)
    ensures Scanned(RecordCommands(seldb, db, cmd), open) ==
      if AofCheck.Allowed(KindOf(cmd), open) then Some(AofCheck.After(KindOf(cmd), open)) else None
  {
    hide Scanned, KindOf;
    ScannedOne(cmd, open);
    if db != seldb {
      SelectingKind(db);
      ScannedOne(Selecting(db), open);
      ScannedAppend([Selecting(db)], [cmd], open);
    } else {
      assert [] + [cmd] == [cmd];
    }
  }

  /** The checker and the loading client agree on what a fed command opens and closes. */
  lemma SameOpens(cmd: Command, open: bool)
    requires !SameWord(NameOf(cmd), DISCARD_WORD)
    ensures Opens(NameOf(cmd), open) == AofCheck.After(KindOf(cmd), open)
  {
    hide SameWord;
  }

  /** One more command on a log. */
  lemma ScanGrows(w: World, bytes: seq<byte>, seldb: int, db: int, cmd: Command, inside: bool, open: bool)
    requires Lawful(w) && Loggable(w, db, cmd) && Written(w, bytes) && ScanIs(Scan(w, bytes), inside, open)
    requires AofCheck.Allowed(KindOf(cmd), open) && !SameWord(NameOf(cmd), DISCARD_WORD)
    ensures var all := bytes + Record(seldb, db, cmd);
      Written(w, all) && ScanIs(Scan(w, all), inside, Opens(NameOf(cmd), open))
  {
    hide Lawful, Loggable, Record, RecordCommands, Written, Scanned, CmdsIn, KindOf, SameWord, Opens;
    RecordWritten(w, seldb, db, cmd);
    ScanAppend(w, bytes, Record(seldb, db, cmd));
    SameOpens(cmd, open);
    RecordScanned(seldb, db, cmd, open);
    RecordScanned(seldb, db, cmd, false);
  }

  lemma ChildGrows(w: World, child: seq<byte>, diff: seq<byte>, seldb: int, db: int, cmd: Command, inside: bool,
                   open: bool)
    requires Lawful(w) && Loggable(w, db, cmd) && ChildSeen(w, Some(child), diff, inside, open)
    requires AofCheck.Allowed(KindOf(cmd), open) && !SameWord(NameOf(cmd), DISCARD_WORD)
    ensures ChildSeen(w, Some(child), diff + Record(seldb, db, cmd), inside, Opens(NameOf(cmd), open))
  {
    hide Lawful, Loggable, Record, RecordCommands, CmdsIn, Written, Scan, KindOf, SameWord, NameOf, Opens, ScanIs,
      AofCheck.Allowed;
    var buf := Record(seldb, db, cmd);
    RecordWritten(w, seldb, db, cmd);
    WrittenAppend(w, diff, buf);
    WrittenAppend(w, child, diff);
    ScanGrows(w, child + diff, seldb, db, cmd, inside, open);
    assert child + diff + buf == child + (diff + buf);
  }

  lemma LogGrows(w: World, file: seq<byte>, aofbuf: seq<byte>, seldb: int, db: int, cmd: Command, inside: bool,
                 open: bool)
    requires Lawful(w) && Loggable(w, db, cmd) && LogSeen(w, file, aofbuf, inside, open)
    requires AofCheck.Allowed(KindOf(cmd), open) && !SameWord(NameOf(cmd), DISCARD_WORD)
    ensures LogSeen(w, file, aofbuf + Record(seldb, db, cmd), inside, Opens(NameOf(cmd), open))
  {
    hide Lawful, Loggable, Record, Written, Scan, KindOf, SameWord, Opens, AofCheck.Allowed;
    ScanGrows(w, aofbuf, seldb, db, cmd, false, open);
  }

  lemma SeenExec(w: World, m: Moment, f: Forks, db: int, cmd: Command)
    requires Lawful(w) && Seen(w, m, f) && Possible(w, m, ExecStep(db, cmd)) && Orderly(m, ExecStep(db, cmd))
    ensures Seen(w, NextMoment(w, m, ExecStep(db, cmd)), ForksNext(m, f, ExecStep(db, cmd)))
  {
    hide Lawful, Loggable, Record, LogSeen, ChildSeen, KindOf, SameWord, Opens, AofCheck.Allowed;
    var s := m.log;
    if s.appendonly {
      LogGrows(w, s.file, s.aofbuf, s.appendseldb, db, cmd, f.log, m.open);
      if s.child.Some? {
        ChildGrows(w, s.child.value, s.bgrewritebuf, s.appendseldb, db, cmd, f.child, m.open);
      } else {
        NoChild(w, f.child, m.open, Opens(NameOf(cmd), m.open), s.bgrewritebuf);
      }
    }
  }

  lemma NoChild(w: World, inside: bool, open: bool, open': bool, diff: seq<byte>)
    requires ChildSeen(w, None, diff, inside, open)
    ensures ChildSeen(w, None, diff, inside, open') && diff == [] && !inside
  {
    hide Written;
  }

  lemma ScanNothing(w: World)
    ensures Written(w, []) && Scan(w, []) == Some(false)
  {
    hide ReadAll;
    ReadEmpty(w.known);
  }

  /** What a flush leaves on disk. */
  lemma FlushedScan(w: World, file: seq<byte>, aofbuf: seq<byte>, inside: bool, open: bool)
    requires LogSeen(w, file, aofbuf, inside, open)
    ensures Written(w, file + aofbuf)
    ensures Scan(w, file + aofbuf) == if inside then None else Some(open)
    ensures !open ==> LogSeen(w, file + aofbuf, [], inside, false)
  {
    hide Written, CmdsIn, Scanned;
    ScanAppend(w, file, aofbuf);
    ScanNothing(w);
  }

  lemma SeenFlush(w: World, m: Moment, f: Forks)
    requires Seen(w, m, f) && !m.open
    ensures Seen(w, NextMoment(w, m, FlushStep), f)
  {
    hide LogSeen, ChildSeen;
    FlushedScan(w, m.log.file, m.log.aofbuf, f.log, Feeding(m));
  }

  lemma SeenRewrite(w: World, m: Moment, f: Forks, dbs: seq<Entries>, forked: bool)
    requires Lawful(w) && Seen(w, m, f) && Snapshot(w, dbs, m.log.live)
    ensures Seen(w, NextMoment(w, m, RewriteStep(dbs, forked)), ForksNext(m, f, RewriteStep(dbs, forked)))
  {
    hide Lawful, LogSeen, ChildSeen, ValidDbs, DataOf, RewriteCommands, EncodeAll;
    if m.log.child.None? && forked {
      NoChild(w, f.child, Feeding(m), Feeding(m), m.log.bgrewritebuf);
      ChildScan(w, dbs, Feeding(m));
    }
  }

  /** A new child: outside of a transaction, or inside of one. */
  lemma ChildScan(w: World, dbs: seq<Entries>, open: bool)
    requires Lawful(w) && RewriteLoadable(dbs)
    ensures ChildSeen(w, Some(EncodeAll(RewriteCommands(dbs))), [], open, open)
  {
    hide Written, CmdsIn, Scanned, RewriteCommands, EncodeAll, Loadable;
    var cmds := RewriteCommands(dbs);
    RewriteIsPlain(dbs);
    forall k | 0 <= k < |cmds| ensures Accepted(w.known, cmds[k]) {
      assert Plain(cmds[k]);
    }
    WrittenCommands(w, cmds);
    PlainScanned(cmds, false);
    ScanNothing(w);
    assert EncodeAll(cmds) + [] == EncodeAll(cmds);
  }

  /** The child's file and the differences, between two transactions. */
  lemma InstalledScan(w: World, child: seq<byte>, diff: seq<byte>, inside: bool)
    requires ChildSeen(w, Some(child), diff, inside, false)
    ensures Written(w, child + diff) && Scan(w, child + diff) == if inside then None else Some(false)
    ensures ChildSeen(w, None, [], false, false)
  {
    hide Written, Scan;
    WrittenAppend(w, child, diff);
    ScanNothing(w);
  }

  lemma OtherFile(w: World, file: seq<byte>, aofbuf: seq<byte>, inside: bool, open: bool, file': seq<byte>,
                  inside': bool)
    requires LogSeen(w, file, aofbuf, inside, open)
    requires Written(w, file') && Scan(w, file') == if inside' then None else Some(false)
    ensures LogSeen(w, file', aofbuf, inside', open)
  {
  }

  lemma SeenDone(w: World, m: Moment, f: Forks, installed: bool)
    requires Seen(w, m, f) && m.log.child.Some? && !m.open
    ensures Seen(w, NextMoment(w, m, DoneStep(installed)), ForksNext(m, f, DoneStep(installed)))
  {
    hide LogSeen, ChildSeen, Written, Scan;
    var s := m.log;
    InstalledScan(w, s.child.value, s.bgrewritebuf, f.child);
    OtherFile(w, s.file, s.aofbuf, f.log, false, s.child.value + s.bgrewritebuf, f.child);
  }

  /** Without the differences the child's file is accepted. */
  lemma DroppedScan(w: World, child: Option<seq<byte>>, diff: seq<byte>, inside: bool)
    requires ChildSeen(w, child, diff, inside, false)
    ensures ChildSeen(w, child, [], false, false)
  {
    hide Written, Scan;
    ScanNothing(w);
    if child.Some? {
      assert child.value + [] == child.value;
    }
  }

  lemma SeenStop(w: World, m: Moment, f: Forks, saving: bool)
    requires Seen(w, m, f) && !m.open && !m.log.exited
    ensures Seen(w, NextMoment(w, m, StopStep(saving)), ForksNext(m, f, StopStep(saving)))
  {
    hide LogSeen, ChildSeen;
    var s := m.log;
    if s.appendonly && !Flush(s).exited {
      FlushedScan(w, s.file, s.aofbuf, f.log, false);
      assert s.file + [] == s.file;
      if saving {
        DroppedScan(w, s.child, s.bgrewritebuf, f.child);
      }
    }
  }

  lemma SeenStart(w: World, m: Moment, f: Forks, dbs: seq<Entries>, found: bool, forked: bool)
    requires Lawful(w) && Seen(w, m, f) && !m.open && Snapshot(w, dbs, m.log.live)
    ensures Seen(w, NextMoment(w, m, StartStep(dbs, found, forked)), f)
  {
    hide Lawful, LogSeen, ChildSeen, ValidDbs, DataOf, RewriteCommands, EncodeAll;
    var s := m.log;
    if !s.appendonly && found && s.child.None? && forked {
      NoChild(w, f.child, false, false, s.bgrewritebuf);
      ChildScan(w, dbs, false);
    }
  }

  lemma SeenStep(w: World, m: Moment, f: Forks, step: Aof.Step)
    requires Lawful(w) && Seen(w, m, f) && Possible(w, m, step) && Orderly(m, step)
    ensures Seen(w, NextMoment(w, m, step), ForksNext(m, f, step))
  {
    hide Lawful, Seen, NextMoment, Snapshot;
    match step
    case ExecStep(db, cmd) => SeenExec(w, m, f, db, cmd);
    case FlushStep => SeenFlush(w, m, f);
    case RewriteStep(dbs, forked) => SeenRewrite(w, m, f, dbs, forked);
    case DoneStep(installed) => SeenDone(w, m, f, installed);
    case StopStep(saving) => SeenStop(w, m, f, saving);
    case StartStep(dbs, found, forked) => SeenStart(w, m, f, dbs, found, forked);
  }

  lemma {:induction false} SeenRun(w: World, m: Moment, f: Forks, steps: seq<Aof.Step>)
    requires Lawful(w) && Seen(w, m, f) && AllPossible(w, m, steps) && AllOrderly(w, m, steps)
    ensures Seen(w, After(w, m, steps), ForksAfter(w, m, f, steps))
    decreases |steps|
  {
    hide Lawful, Seen, NextMoment, ForksNext, Possible, Orderly;
    if steps != [] {
      SeenStep(w, m, f, steps[0]);
      SeenRun(w, NextMoment(w, m, steps[0]), ForksNext(m, f, steps[0]), steps[1..]);
    }
  }

  lemma SeenBegin(w: World, appendonly: bool)
    ensures Seen(w, Begin(appendonly), Forks(false, false))
  {
    hide Written, Scan;
    ScanNothing(w);
  }

  /**
    * Over every orderly run from an empty server: the checker accepts the file on disk exactly if the newest installed
    * rewrite was not forked inside a transaction. So it does for file and buffer together between two transactions.
    */
  lemma FileAcceptedExactlyIf(w: World, appendonly: bool, steps: seq<Aof.Step>)
    requires Lawful(w) && AllPossible(w, Begin(appendonly), steps) && AllOrderly(w, Begin(appendonly), steps)
    ensures var m := After(w, Begin(appendonly), steps);
      var inside := ForksAfter(w, Begin(appendonly), Forks(false, false), steps).log;
      && (AofCheck.Sound(m.log.file, false) <==> !inside)
      && (!m.open ==> (AofCheck.Sound(m.log.file + m.log.aofbuf, false) <==> !inside))
  {
    hide Lawful, AllPossible, AllOrderly, After, ForksAfter, Written, Scan, AofCheck.Sound, ChildSeen;
    SeenBegin(w, appendonly);
    SeenRun(w, Begin(appendonly), Forks(false, false), steps);
    var m := After(w, Begin(appendonly), steps);
    var f := ForksAfter(w, Begin(appendonly), Forks(false, false), steps);
    FlushedScan(w, m.log.file, m.log.aofbuf, f.log, Feeding(m));
    AcceptedIsScan(w, m.log.file);
    AcceptedIsScan(w, m.log.file + m.log.aofbuf);
  }

  // ----- A rewrite that is started inside a transaction -----

  const MULTI_NAME: seq<byte> := [77, 85, 76, 84, 73]
  const EXEC_NAME: seq<byte> := [69, 88, 69, 67]

  /** MULTI, a rewrite among the commands of the transaction, EXEC, and the rewrite installed after a flush. */
  function RewrittenInside(w: World): Log {
    var s := StartRewrite(Executed(w, Empty(true), 0, [MULTI_NAME]), [], true);
    RewriteDone(Flush(Executed(w, s, 0, [EXEC_NAME])), true)
  }

  /** The new file has the EXEC without its MULTI: it loads, but the checker refuses it. */
  lemma CheckerRefusesRewrite(w: World)
    requires Lawful(w) && w.known(EXEC_NAME)
    ensures Load(w.known, RewrittenInside(w).file) == Loaded([Selecting(0), [EXEC_NAME]], Complete)
    ensures !AofCheck.Sound(RewrittenInside(w).file, false)
  {
    hide Lawful, ReadAll, Record, AofCheck.Sound, EncodeAll, OpenAfter;
    var cmd: Command := [EXEC_NAME];
    var buf := Record(-1, 0, cmd);
    NoRewrite();
    assert RewrittenInside(w).file == [] + buf == buf;
    DbnumFits(w);
    ExecWord();
    RecordReads(w, -1, 0, cmd);
    RecordOpens(-1, 0, cmd, false);
    var cmds := RecordCommands(-1, 0, cmd);
    assert cmds == [Selecting(0), cmd];
    RecordIsEncoded(-1, 0, cmd);
    SelectingAccepted(w, 0);
    AofCheck.WrittenIsSound(cmds, false);
    ExecUnbalanced();
  }

  lemma NoRewrite()
    ensures EncodeAll(RewriteCommands([])) == []
  {
  }

  lemma ExecWord()
    ensures !IsSelect([EXEC_NAME]) && Loadable([EXEC_NAME]) && SameWord(EXEC_NAME, EXEC_WORD)
    ensures forall open :: !Opens(EXEC_NAME, open)
  {
    assert SameWord([67], [99]);
    assert [69, 67][1..] == [67] && [101, 99][1..] == [99];
    assert SameWord([69, 67], [101, 99]);
    assert [88, 69, 67][1..] == [69, 67] && [120, 101, 99][1..] == [101, 99];
    assert SameWord([88, 69, 67], [120, 101, 99]);
    assert EXEC_NAME[1..] == [88, 69, 67] && EXEC_WORD[1..] == [120, 101, 99];
    assert SameWord(EXEC_NAME, EXEC_WORD);
    assert Lower(EXEC_NAME[0]) != MULTI_WORD[0];
    assert !SameWord(EXEC_NAME, MULTI_WORD);
  }

  lemma ExecUnbalanced()
    ensures !AofCheck.Balanced([Selecting(0), [EXEC_NAME]], false)
  {
    hide Decimal.Print;
    ExecWord();
    assert [Selecting(0), [EXEC_NAME]][1..] == [[EXEC_NAME]];
  }
}
