/** From the requests of a client to the verdict of its EXEC: what WATCH registers, and what MULTI queues, over runs. */
module TransactionsRuns {
  import opened Bytes
  import opened Sequences
  import opened TransactionsSpec

  // ----- What a client watches -----

  lemma WatchKeyAdds(s: State, c: Id, key: seq<byte>)
    requires c in s.clients
    ensures
      var t := WatchKey(s, c, key);
      var u := s.clients[c];
      && t.clients.Keys == s.clients.Keys
      && (forall d :: d in s.clients && d != c ==> t.clients[d] == s.clients[d])
      && t.clients[c] == u.(watched := t.clients[c].watched)
      && (forall p :: p in t.clients[c].watched <==> p in u.watched || p == (u.db, key))
  {
  }

  lemma {:induction false} WatchKeysAdd(s: State, c: Id, keys: seq<seq<byte>>)
    requires c in s.clients
    ensures
      var t := WatchKeys(s, c, keys);
      var u := s.clients[c];
      && (forall d :: d in s.clients && d != c ==> t.clients[d] == s.clients[d])
      && t.clients[c] == u.(watched := t.clients[c].watched)
      && (forall p :: p in t.clients[c].watched <==> p in u.watched || (p.0 == u.db && p.1 in keys))
    decreases |keys|
  {
    hide WatchKey;
    if keys != [] {
      WatchKeyAdds(s, c, keys[0]);
      assert c in WatchKey(s, c, keys[0]).clients;
      WatchKeysAdd(WatchKey(s, c, keys[0]), c, keys[1..]);
      assert keys == [keys[0]] + keys[1..];
    }
  }

  /** WATCH outside MULTI registers every key of its list in the client's database, and changes nothing else about any
      client. */
  lemma WatchRegisters(s: State, c: Id, keys: seq<seq<byte>>)
    requires c in s.clients && !s.clients[c].multi
    ensures
      var o := Handle(s, c, WatchRequest(keys));
      var t := o.state;
      var u := s.clients[c];
      && o.reply == Done
      && t.clients.Keys == s.clients.Keys
      && (forall d :: d in s.clients && d != c ==> t.clients[d] == s.clients[d])
      && t.clients[c] == u.(watched := t.clients[c].watched)
      && (forall k :: 0 <= k < |keys| ==> (u.db, keys[k]) in t.clients[c].watched)
      && (forall p :: p in t.clients[c].watched ==> p in u.watched || (p.0 == u.db && p.1 in keys))
      && (forall p :: p in u.watched ==> p in t.clients[c].watched)
  {
    hide WatchKeys;
    WatchKeysAdd(s, c, keys);
  }

  /** The client gives up its watches: UNWATCH outside MULTI, DISCARD and EXEC inside. */
  predicate Forgets(s: State, step: Step, c: Id) {
    step.Issue? && step.c == c && c in s.clients &&
    match step.r
    case UnwatchRequest => !s.clients[c].multi
    case DiscardRequest => s.clients[c].multi
    case ExecRequest(_) => s.clients[c].multi
    case _ => false
  }

  /** The client asks for a key to be watched, outside MULTI. */
  predicate Registers(s: State, step: Step, c: Id, p: Location) {
    && step.Issue? && step.c == c && c in s.clients && !s.clients[c].multi
    && step.r.WatchRequest? && p.0 == s.clients[c].db && p.1 in step.r.keys
  }

  /** One step, exactly: what a client watches changes by its own requests alone. */
  lemma StepWatches(s: State, step: Step, c: Id)
    requires Possible(s, step) && c in s.clients && step != Connect(c) && step != Disconnect(c)
    ensures c in Next(s, step).clients
    ensures forall p :: p in Next(s, step).clients[c].watched <==>
      (p in s.clients[c].watched && !Forgets(s, step, c)) || Registers(s, step, c, p)
  {
    match step
    case Connect(_) =>
    case Disconnect(d) => UnwatchClients(s, d);
    case Issue(d, r) => RequestWatches(s, d, r, c);
  }

  lemma RequestWatches(s: State, d: Id, r: Request, c: Id)
    requires d in s.clients && c in s.clients
    ensures c in Handle(s, d, r).state.clients
    ensures forall p :: p in Handle(s, d, r).state.clients[c].watched <==>
      (p in s.clients[c].watched && !Forgets(s, Issue(d, r), c)) || Registers(s, Issue(d, r), c, p)
  {
    hide Hits, ApplyEffects, WatchKeys, UnwatchAll;
    match r
    case WatchRequest(keys) => WatchKeysAdd(s, d, keys);
    case MultiRequest =>
    case DiscardRequest => UnwatchClients(With(s, d, s.clients[d].(multi := false, queue := [])), d);
    case UnwatchRequest => UnwatchClients(s, d);
    case OtherRequest(_, es) => EffectsMark(s, d, es, c);
    case ExecRequest(es) =>
      UnwatchClients(With(s, d, s.clients[d].(multi := false, dirty := false, queue := [])), d);
      UnwatchClients(s, d);
      EffectsMark(UnwatchAll(s, d), d, es, c);
    case BadRequest =>
  }

  ghost predicate NeverForgets(s: State, steps: seq<Step>, c: Id)
    requires Feasible(s, steps)
    decreases |steps|
  {
    steps == [] || (!Forgets(s, steps[0], c) && NeverForgets(Next(s, steps[0]), steps[1..], c))
  }

  /** Some step registers the key, and no later one gives it up. */
  ghost predicate Registered(s: State, steps: seq<Step>, c: Id, p: Location)
    requires Feasible(s, steps)
    decreases |steps|
  {
    steps != [] &&
    var t := Next(s, steps[0]);
    (Registers(s, steps[0], c, p) && NeverForgets(t, steps[1..], c)) || Registered(t, steps[1..], c, p)
  }

  /** Over every run, a client watches a key exactly if it asked for it and has not given its watches up since. */
  lemma {:induction false} WatchedExactlyIf(s: State, steps: seq<Step>, c: Id, p: Location)
    requires Feasible(s, steps) && c in s.clients && Stays(steps, c)
    ensures c in After(s, steps).clients
    ensures p in After(s, steps).clients[c].watched <==>
      (p in s.clients[c].watched && NeverForgets(s, steps, c)) || Registered(s, steps, c, p)
    decreases |steps|
  {
    hide Next, Forgets, Registers, Possible;
    if steps != [] {
      StepWatches(s, steps[0], c);
      WatchedExactlyIf(Next(s, steps[0]), steps[1..], c, p);
    }
  }

  /**
    * The promise of WATCH, from the request on: the client asks for some keys and does not give them up, one of them is
    * written or flushed away, and nothing clears the flag after that. The next EXEC aborts.
    */
  lemma WatchedWriteAborts(s: State, c: Id, keys: seq<seq<byte>>, key: seq<byte>, between: seq<Step>, write: Step,
                           later: seq<Step>, es: seq<Effect>)
    requires c in s.clients && !s.clients[c].multi && key in keys
    requires
      var t := Next(s, Issue(c, WatchRequest(keys)));
      && Feasible(t, between) && NeverForgets(t, between, c) && Stays(between, c)
      && var u := After(t, between);
      && Possible(u, write) && Changes(u, write, (s.clients[c].db, key)) && !Clears(u, write, c)
      && Feasible(Next(u, write), later) && NeverCleared(Next(u, write), later, c) && Stays([write] + later, c)
    ensures
      var v := After(Next(After(Next(s, Issue(c, WatchRequest(keys))), between), write), later);
      c in v.clients && (v.clients[c].multi ==> Handle(v, c, ExecRequest(es)).reply == Aborted)
  {
    hide Next, After, Changes, Clears, NeverCleared, NeverForgets, Exec, Feasible;
    var t := Next(s, Issue(c, WatchRequest(keys)));
    var p := (s.clients[c].db, key);
    FirstWatch(s, c, keys, key);
    WatchedExactlyIf(t, between, c, p);
    TouchedCannotCommit(After(t, between), write, p, later, c, es);
  }

  lemma FirstWatch(s: State, c: Id, keys: seq<seq<byte>>, key: seq<byte>)
    requires c in s.clients && !s.clients[c].multi && key in keys
    ensures
      var t := Next(s, Issue(c, WatchRequest(keys)));
      c in t.clients && (s.clients[c].db, key) in t.clients[c].watched
  {
    hide Handle;
    WatchRegisters(s, c, keys);
    var k :| 0 <= k < |keys| && keys[k] == key;
  }

  // ----- What a client has queued -----

  /** The words that a request was sent with, for the requests that can be queued. */
  function Text(r: Request): Command {
    match r
    case UnwatchRequest => [[117, 110, 119, 97, 116, 99, 104]]
    case OtherRequest(cmd, _) => cmd
    case _ => []
  }

  /** Inside MULTI, exactly the requests that pass the tests and are none of the transaction's own are queued. */
  lemma InsideMulti(s: State, c: Id, r: Request)
    requires c in s.clients && s.clients[c].multi
    ensures
      var reply := Handle(s, c, r).reply;
      && (reply == Queued <==> r.UnwatchRequest? || r.OtherRequest?)
      && (reply == Refused <==> r.WatchRequest? || r.MultiRequest? || r.BadRequest?)
      && (reply == Done <==> r.DiscardRequest?)
  {
    hide UnwatchAll, ApplyEffects;
  }

  /** What the step adds to what client c is told to be queued. */
  function QueuedIn(s: State, step: Step, c: Id): seq<Command>
    requires Possible(s, step)
  {
    if step.Issue? && step.c == c && Handle(s, c, step.r).reply == Queued then [Text(step.r)] else []
  }

  /** The commands of client c that were answered as queued, in the order they were issued. */
  function QueuedBy(s: State, steps: seq<Step>, c: Id): seq<Command>
    requires Feasible(s, steps)
    decreases |steps|
  {
    if steps == [] then [] else QueuedIn(s, steps[0], c) + QueuedBy(Next(s, steps[0]), steps[1..], c)
  }

  predicate EndsTransaction(step: Step, c: Id) {
    step.Issue? && step.c == c && (step.r.ExecRequest? || step.r.DiscardRequest?)
  }

  /** Client c stays and does not end its transaction. */
  predicate GoesOn(steps: seq<Step>, c: Id) {
    Stays(steps, c) && forall k :: 0 <= k < |steps| ==> !EndsTransaction(steps[k], c)
  }

  /** One step, exactly: MULTI opens, EXEC and DISCARD end, and what is answered as queued goes to the queue's end. */
  lemma StepTransacts(s: State, step: Step, c: Id)
    requires Possible(s, step) && c in s.clients && step != Connect(c) && step != Disconnect(c)
    ensures c in Next(s, step).clients
    ensures
      var t := Next(s, step).clients[c];
      var u := s.clients[c];
      if u.multi && EndsTransaction(step, c) then !t.multi && t.queue == []
      else t.multi == (u.multi || step == Issue(c, MultiRequest)) && t.queue == u.queue + QueuedIn(s, step, c)
  {
    match step
    case Connect(_) =>
    case Disconnect(d) => UnwatchClients(s, d);
    case Issue(d, r) => RequestTransacts(s, d, r, c);
  }

  lemma RequestTransacts(s: State, d: Id, r: Request, c: Id)
    requires d in s.clients && c in s.clients
    ensures c in Handle(s, d, r).state.clients
    ensures
      var t := Handle(s, d, r).state.clients[c];
      var u := s.clients[c];
      if u.multi && EndsTransaction(Issue(d, r), c) then !t.multi && t.queue == []
      else t.multi == (u.multi || (d == c && r == MultiRequest)) && t.queue == u.queue + QueuedIn(s, Issue(d, r), c)
  {
    hide Hits, ApplyEffects, WatchKeys, UnwatchAll;
    match r
    case WatchRequest(keys) => WatchKeysAdd(s, d, keys);
    case MultiRequest =>
    case DiscardRequest => UnwatchClients(With(s, d, s.clients[d].(multi := false, queue := [])), d);
    case UnwatchRequest => UnwatchClients(s, d);
    case OtherRequest(_, es) => EffectsMark(s, d, es, c);
    case ExecRequest(es) =>
      UnwatchClients(With(s, d, s.clients[d].(multi := false, dirty := false, queue := [])), d);
      UnwatchClients(s, d);
      EffectsMark(UnwatchAll(s, d), d, es, c);
    case BadRequest =>
  }

  lemma {:induction false} RunTransacts(s: State, steps: seq<Step>, c: Id)
    requires Feasible(s, steps) && c in s.clients && s.clients[c].multi && GoesOn(steps, c)
    ensures c in After(s, steps).clients
    ensures
      var t := After(s, steps).clients[c];
      t.multi && t.queue == s.clients[c].queue + QueuedBy(s, steps, c)
    decreases |steps|
  {
    hide Next, QueuedIn, EndsTransaction, Possible;
    if steps != [] {
      StepTransacts(s, steps[0], c);
      RunTransacts(Next(s, steps[0]), steps[1..], c);
    }
  }

  /** The database that effects leave selected. */
  function SelectedBy(es: seq<Effect>, db: int): int {
    if es == [] then db
    else if es[|es| - 1].Selected? then es[|es| - 1].db
    else SelectedBy(es[..|es| - 1], db)
  }

  lemma {:induction false} SelectedFirst(es: seq<Effect>, db: int)
    requires es != []
    ensures SelectedBy(es, db) == SelectedBy(es[1..], if es[0].Selected? then es[0].db else db)
    decreases |es|
  {
    if |es| > 1 {
      assert es[1..][|es| - 2] == es[|es| - 1];
      assert es[1..][..|es| - 2] == es[..|es| - 1][1..];
      if !es[|es| - 1].Selected? {
        SelectedFirst(es[..|es| - 1], db);
      }
    } else {
      assert es[..0] == [] && es[1..] == [];
    }
  }

  lemma {:induction false} EffectsSelect(s: State, d: Id, es: seq<Effect>, c: Id)
    requires d in s.clients && c in s.clients
    ensures ApplyEffects(s, d, es).clients[c].db ==
      if c == d then SelectedBy(es, s.clients[c].db) else s.clients[c].db
    decreases |es|
  {
    hide Watching, Losing;
    if es != [] {
      SelectedFirst(es, s.clients[c].db);
      EffectsSelect(ApplyEffect(s, d, es[0]), d, es[1..], c);
    }
  }

  /** One step, exactly: the database of a client is the last that its own commands selected when they were executed. */
  lemma StepSelects(s: State, step: Step, c: Id)
    requires Possible(s, step) && c in s.clients && step != Connect(c) && step != Disconnect(c)
    ensures c in Next(s, step).clients
    ensures Next(s, step).clients[c].db ==
      if step.Issue? && step.c == c then SelectedBy(EffectsOf(s, step), s.clients[c].db) else s.clients[c].db
  {
    match step
    case Connect(_) =>
    case Disconnect(d) => UnwatchClients(s, d);
    case Issue(d, r) => RequestSelects(s, d, r, c);
  }

  lemma RequestSelects(s: State, d: Id, r: Request, c: Id)
    requires d in s.clients && c in s.clients
    ensures c in Handle(s, d, r).state.clients
    ensures Handle(s, d, r).state.clients[c].db ==
      if d == c then SelectedBy(EffectsOf(s, Issue(d, r)), s.clients[c].db) else s.clients[c].db
  {
    hide ApplyEffects, WatchKeys, UnwatchAll;
    match r
    case WatchRequest(keys) => WatchKeysAdd(s, d, keys);
    case MultiRequest =>
    case DiscardRequest => UnwatchClients(With(s, d, s.clients[d].(multi := false, queue := [])), d);
    case UnwatchRequest => UnwatchClients(s, d);
    case OtherRequest(_, es) => EffectsSelect(s, d, es, c);
    case ExecRequest(es) =>
      UnwatchClients(With(s, d, s.clients[d].(multi := false, dirty := false, queue := [])), d);
      UnwatchClients(s, d);
      EffectsSelect(UnwatchAll(s, d), d, es, c);
    case BadRequest =>
  }

  /** Outside a transaction nothing is queued. */
  predicate IdleQueues(s: State) {
    forall c :: c in s.clients && !s.clients[c].multi ==> s.clients[c].queue == []
  }

  lemma StepIdles(s: State, step: Step)
    requires IdleQueues(s) && Possible(s, step)
    ensures IdleQueues(Next(s, step))
  {
    hide Handle, Next, QueuedIn;
    forall c | c in Next(s, step).clients && !Next(s, step).clients[c].multi
      ensures Next(s, step).clients[c].queue == []
    {
      if c in s.clients && step != Disconnect(c) {
        StepTransacts(s, step, c);
        if !s.clients[c].multi {
          QueuedInsideOnly(s, step, c);
        }
      } else {
        NewIsIdle(s, step, c);
      }
    }
  }

  lemma NewIsIdle(s: State, step: Step, c: Id)
    requires Possible(s, step) && c in Next(s, step).clients && (c !in s.clients || step == Disconnect(c))
    ensures Next(s, step).clients[c] == IDLE
  {
    hide Handle;
    match step
    case Connect(_) =>
    case Disconnect(d) => UnwatchClients(s, d);
    case Issue(d, r) => SameClients(s, d, r);
  }

  lemma SameClients(s: State, d: Id, r: Request)
    requires d in s.clients
    ensures Handle(s, d, r).state.clients.Keys == s.clients.Keys
  {
    hide UnwatchAll;
    UnwatchClients(s, d);
    UnwatchClients(With(s, d, s.clients[d].(multi := false, queue := [])), d);
    UnwatchClients(With(s, d, s.clients[d].(multi := false, dirty := false, queue := [])), d);
  }

  lemma QueuedInsideOnly(s: State, step: Step, c: Id)
    requires Possible(s, step) && c in s.clients && !s.clients[c].multi
    ensures QueuedIn(s, step, c) == []
  {
    hide UnwatchAll, ApplyEffects, WatchKeys;
  }

  lemma {:induction false} RunIdles(s: State, steps: seq<Step>)
    requires IdleQueues(s) && Feasible(s, steps)
    ensures IdleQueues(After(s, steps))
    decreases |steps|
  {
    hide IdleQueues, Next, Possible;
    if steps != [] {
      StepIdles(s, steps[0]);
      RunIdles(Next(s, steps[0]), steps[1..]);
    }
  }

  /**
    * The promise of MULTI, from a server without clients on: after any run, once a client's MULTI is accepted and until
    * it ends the transaction, EXEC either aborts or executes exactly the commands that the client was told to be
    * queued, all of them, once each, in the order they were issued. Either way nothing stays queued or watched.
    */
  lemma ExecRunsWhatWasQueued(before: seq<Step>, c: Id, steps: seq<Step>, es: seq<Effect>)
    requires Feasible(State(map[], map[]), before)
    requires
      var s := After(State(map[], map[]), before);
      && c in s.clients && Handle(s, c, MultiRequest).reply == Done
      && Feasible(Next(s, Issue(c, MultiRequest)), steps) && GoesOn(steps, c)
    ensures
      var t := Next(After(State(map[], map[]), before), Issue(c, MultiRequest));
      var u := After(t, steps);
      && c in u.clients
      && var o := Handle(u, c, ExecRequest(es));
      && o.reply == (if u.clients[c].dirty then Aborted else Executed(QueuedBy(t, steps, c)))
      && c in o.state.clients && o.state.clients[c] == Client(o.state.clients[c].db, false, false, [], [])
  {
    hide *;
    var s := After(State(map[], map[]), before);
    NobodyIdles();
    RunIdles(State(map[], map[]), before);
    MultiOpens(s, c);
    var t := Next(s, Issue(c, MultiRequest));
    RunTransacts(t, steps, c);
    ExecEnds(After(t, steps), c, es);
  }

  lemma NobodyIdles()
    ensures IdleQueues(State(map[], map[]))
  {
  }

  lemma MultiOpens(s: State, c: Id)
    requires c in s.clients && IdleQueues(s) && Handle(s, c, MultiRequest).reply == Done
    ensures Possible(s, Issue(c, MultiRequest))
    ensures
      var t := Next(s, Issue(c, MultiRequest));
      c in t.clients && t.clients[c].multi && t.clients[c].queue == []
  {
  }

  lemma ExecEnds(s: State, c: Id, es: seq<Effect>)
    requires c in s.clients && s.clients[c].multi
    ensures
      var o := Handle(s, c, ExecRequest(es));
      && o.reply == (if s.clients[c].dirty then Aborted else Executed(s.clients[c].queue))
      && c in o.state.clients && o.state.clients[c] == Client(o.state.clients[c].db, false, false, [], [])
  {
    hide UnwatchAll, ApplyEffects;
    UnwatchClients(s, c);
    UnwatchClients(With(s, c, s.clients[c].(multi := false, dirty := false, queue := [])), c);
    EffectsMark(UnwatchAll(s, c), c, es, c);
  }
}
