/** Optimistic transactions: WATCH, MULTI, EXEC, over two indexes that must stay inverses of each other. */
module TransactionsSpec {
  import opened Bytes
  import opened Sequences
  import Resp

  type Command = Resp.Command

  /** A key of a numbered database. */
  type Location = (int, seq<byte>)
  type Id = int

  datatype Client = Client(db: int, multi: bool, dirty: bool, queue: seq<Command>, watched: seq<Location>)

  const IDLE: Client := Client(0, false, false, [], [])

  /** Each client's list of watched keys, and each watched key's list of clients. */
  datatype State = State(clients: map<Id, Client>, watchers: map<Location, seq<Id>>)

  /** The two indexes are exact inverses, without duplicates and without entries for no client. */
  ghost predicate Consistent(s: State) {
    && (forall c :: c in s.clients ==> Distinct(s.clients[c].watched))
    && (forall p :: p in s.watchers ==> Distinct(s.watchers[p]) && s.watchers[p] != [])
    && (forall c, p :: c in s.clients && p in s.clients[c].watched ==> p in s.watchers && c in s.watchers[p])
    && (forall c, p :: p in s.watchers && c in s.watchers[p] ==> c in s.clients && p in s.clients[c].watched)
  }

  // ----- What the commands do -----

  function With(s: State, c: Id, client: Client): State {
    s.(clients := s.clients[c := client])
  }

  function WatchKey(s: State, c: Id, key: seq<byte>): State
    requires c in s.clients
  {
    var client := s.clients[c];
    var p := (client.db, key);
    if p in client.watched then s
    else
      var others := if p in s.watchers then s.watchers[p] else [];
      State(s.clients[c := client.(watched := client.watched + [p])], s.watchers[p := others + [c]])
  }

  function WatchKeys(s: State, c: Id, keys: seq<seq<byte>>): (t: State)
    requires c in s.clients
    ensures t.clients.Keys == s.clients.Keys
    decreases |keys|
  {
    if keys == [] then s
    else
      var t := WatchKey(s, c, keys[0]);
      assert t.clients.Keys == s.clients.Keys;
      WatchKeys(t, c, keys[1..])
  }

  /** The client leaves every list, and lists that become empty go away. */
  function UnwatchAll(s: State, c: Id): State
    requires c in s.clients
  {
    State(s.clients[c := s.clients[c].(watched := [])],
          map p | p in s.watchers && Without(s.watchers[p], c) != [] :: Without(s.watchers[p], c))
  }

  /** Marks every client of a set as dirty. */
  function Mark(s: State, hit: set<Id>): State {
    s.(clients := map c | c in s.clients :: if c in hit then s.clients[c].(dirty := true) else s.clients[c])
  }

  function Watching(s: State, p: Location): set<Id> {
    set c | c in s.clients && p in s.clients[c].watched
  }

  /** The clients that watch a key which exists and which a flush of database `dbid`, or of all for -1, will delete. */
  function Losing(s: State, dbid: int, existing: set<Location>): set<Id> {
    set c | c in s.clients && Loses(s.clients[c].watched, dbid, existing)
  }

  predicate Loses(watched: seq<Location>, dbid: int, existing: set<Location>) {
    exists k :: 0 <= k < |watched| && (dbid == -1 || watched[k].0 == dbid) && watched[k] in existing
  }

  /** What executing a command can do to the transaction state. */
  datatype Effect = Touched(p: Location) | Flushed(dbid: int, existing: set<Location>) | Selected(db: int)

  function Hit(s: State, e: Effect): set<Id> {
    match e
    case Touched(p) => Watching(s, p)
    case Flushed(dbid, existing) => Losing(s, dbid, existing)
    case Selected(_) => {}
  }

  function ApplyEffect(s: State, c: Id, e: Effect): State
    requires c in s.clients
  {
    match e
    case Touched(p) => Mark(s, Watching(s, p))
    case Flushed(dbid, existing) => Mark(s, Losing(s, dbid, existing))
    case Selected(db) => With(s, c, s.clients[c].(db := db))
  }

  function ApplyEffects(s: State, c: Id, es: seq<Effect>): (t: State)
    requires c in s.clients
    ensures t.clients.Keys == s.clients.Keys
    decreases |es|
  {
    if es == [] then s
    else
      var t := ApplyEffect(s, c, es[0]);
      assert t.clients.Keys == s.clients.Keys;
      ApplyEffects(t, c, es[1..])
  }

  /** What the client is told, as far as it matters here. */
  datatype Reply = Done | Queued | Refused | Aborted | Executed(queue: seq<Command>)

  datatype Outcome = Outcome(state: State, reply: Reply)

  function Multi(s: State, c: Id): Outcome
    requires c in s.clients
  {
    if s.clients[c].multi then Outcome(s, Refused)
    else Outcome(With(s, c, s.clients[c].(multi := true)), Done)
  }

  /** The dirty flag stays as it is. */
  function Discard(s: State, c: Id): Outcome
    requires c in s.clients
  {
    if !s.clients[c].multi then Outcome(s, Refused)
    else Outcome(UnwatchAll(With(s, c, s.clients[c].(multi := false, queue := [])), c), Done)
  }

  function Watch(s: State, c: Id, keys: seq<seq<byte>>): Outcome
    requires c in s.clients
  {
    if s.clients[c].multi then Outcome(s, Refused) else Outcome(WatchKeys(s, c, keys), Done)
  }

  function Unwatch(s: State, c: Id): State
    requires c in s.clients
  {
    var t := UnwatchAll(s, c);
    With(t, c, t.clients[c].(dirty := false))
  }

  /** `es` is what the queued commands do if they are executed. */
  function Exec(s: State, c: Id, es: seq<Effect>): Outcome
    requires c in s.clients
  {
    var client := s.clients[c];
    if !client.multi then Outcome(s, Refused)
    else if client.dirty then
      Outcome(UnwatchAll(With(s, c, client.(multi := false, dirty := false, queue := [])), c), Aborted)
    else
      var t := ApplyEffects(UnwatchAll(s, c), c, es);
      Outcome(With(t, c, t.clients[c].(multi := false, dirty := false, queue := [])), Executed(client.queue))
  }

  /** A request of a client. Bad ones fail a test before they are run or queued: no such command, a wrong number of
      arguments, no permission, no memory, and so on. */
  datatype Request =
    | WatchRequest(keys: seq<seq<byte>>)
    | UnwatchRequest
    | MultiRequest
    | DiscardRequest
    | ExecRequest(es: seq<Effect>)
    | OtherRequest(cmd: Command, es: seq<Effect>)
    | BadRequest

  const UNWATCH: Command := [[117, 110, 119, 97, 116, 99, 104]]

  function Enqueue(s: State, c: Id, cmd: Command): State
    requires c in s.clients
  {
    With(s, c, s.clients[c].(queue := s.clients[c].queue + [cmd]))
  }

  /** Inside MULTI everything but MULTI, WATCH, DISCARD and EXEC is queued, if it passes the tests. */
  function Handle(s: State, c: Id, r: Request): Outcome
    requires c in s.clients
  {
    match r
    case WatchRequest(keys) => Watch(s, c, keys)
    case MultiRequest => Multi(s, c)
    case DiscardRequest => Discard(s, c)
    case ExecRequest(es) => Exec(s, c, es)
    case UnwatchRequest =>
      if s.clients[c].multi then Outcome(Enqueue(s, c, UNWATCH), Queued) else Outcome(Unwatch(s, c), Done)
    case OtherRequest(cmd, es) =>
      if s.clients[c].multi then Outcome(Enqueue(s, c, cmd), Queued) else Outcome(ApplyEffects(s, c, es), Done)
    case BadRequest => Outcome(s, Refused)
  }

  /** A refused request leaves no trace: nothing is queued, no flag or list changes, and an open transaction goes on. */
  lemma RefusedChangesNothing(s: State, c: Id, r: Request)
    requires c in s.clients && Handle(s, c, r).reply == Refused
    ensures Handle(s, c, r).state == s
  {
    hide UnwatchAll, WatchKeys, ApplyEffects;
  }

  /** A step of the server: a client comes, goes, or sends a request. */
  datatype Step = Connect(c: Id) | Disconnect(c: Id) | Issue(c: Id, r: Request)

  predicate Possible(s: State, step: Step) {
    match step
    case Connect(c) => c !in s.clients
    case Disconnect(c) => c in s.clients
    case Issue(c, _) => c in s.clients
  }

  function Next(s: State, step: Step): State
    requires Possible(s, step)
  {
    match step
    case Connect(c) => With(s, c, IDLE)
    case Disconnect(c) =>
      var t := UnwatchAll(s, c);
      t.(clients := t.clients - {c})
    case Issue(c, r) => Handle(s, c, r).state
  }

  predicate Feasible(s: State, steps: seq<Step>)
    decreases |steps|
  {
    steps == [] || (Possible(s, steps[0]) && Feasible(Next(s, steps[0]), steps[1..]))
  }

  function After(s: State, steps: seq<Step>): State
    requires Feasible(s, steps)
    decreases |steps|
  {
    if steps == [] then s else After(Next(s, steps[0]), steps[1..])
  }

  // ----- The indexes stay consistent -----

  lemma UnwatchKeeps(s: State, c: Id)
    requires Consistent(s) && c in s.clients
    ensures Consistent(UnwatchAll(s, c))
    ensures forall p :: p in UnwatchAll(s, c).watchers ==> c !in UnwatchAll(s, c).watchers[p]
  {
    var t := UnwatchAll(s, c);
    forall d, p | d in t.clients && p in t.clients[d].watched ensures p in t.watchers && d in t.watchers[p] {
      assert d != c && d in Without(s.watchers[p], c);
    }
    forall d, p | p in t.watchers && d in t.watchers[p] ensures d in t.clients && p in t.clients[d].watched {
      assert d != c;
    }
  }

  /** Changes that leave the lists alone. */
  lemma SameListsKeep(s: State, t: State)
    requires Consistent(s) && t.watchers == s.watchers && t.clients.Keys == s.clients.Keys
    requires forall c :: c in s.clients ==> t.clients[c].watched == s.clients[c].watched
    ensures Consistent(t)
  {
  }

  lemma WatchKeyKeeps(s: State, c: Id, key: seq<byte>)
    requires Consistent(s) && c in s.clients
    ensures Consistent(WatchKey(s, c, key))
  {
    var p := (s.clients[c].db, key);
    var t := WatchKey(s, c, key);
    if p !in s.clients[c].watched {
      assert p in s.watchers ==> c !in s.watchers[p];
      assert t.clients[c].watched == s.clients[c].watched + [p];
      assert forall d, q :: (d, q) != (c, p) && d in s.clients ==>
        (q in t.clients[d].watched <==> q in s.clients[d].watched);
    }
  }

  lemma {:induction false} WatchKeysKeep(s: State, c: Id, keys: seq<seq<byte>>)
    requires Consistent(s) && c in s.clients
    ensures Consistent(WatchKeys(s, c, keys))
    decreases |keys|
  {
    hide Consistent;
    if keys != [] {
      WatchKeyKeeps(s, c, keys[0]);
      WatchKeysKeep(WatchKey(s, c, keys[0]), c, keys[1..]);
    }
  }

  lemma {:induction false} EffectsKeep(s: State, c: Id, es: seq<Effect>)
    requires Consistent(s) && c in s.clients
    ensures Consistent(ApplyEffects(s, c, es))
    decreases |es|
  {
    hide Consistent, Watching, Losing;
    if es != [] {
      var t := ApplyEffect(s, c, es[0]);
      SameListsKeep(s, t);
      EffectsKeep(t, c, es[1..]);
    }
  }

  lemma ExecKeeps(s: State, c: Id, es: seq<Effect>)
    requires Consistent(s) && c in s.clients
    ensures Consistent(Exec(s, c, es).state)
  {
    hide Consistent, UnwatchAll, ApplyEffects;
    var client := s.clients[c];
    if client.multi {
      if client.dirty {
        var t := With(s, c, client.(multi := false, dirty := false, queue := []));
        SameListsKeep(s, t);
        UnwatchKeeps(t, c);
      } else {
        UnwatchKeeps(s, c);
        UnwatchClients(s, c);
        EffectsKeep(UnwatchAll(s, c), c, es);
        var t := ApplyEffects(UnwatchAll(s, c), c, es);
        SameListsKeep(t, With(t, c, t.clients[c].(multi := false, dirty := false, queue := [])));
      }
    }
  }

  lemma UnwatchClients(s: State, c: Id)
    requires c in s.clients
    ensures UnwatchAll(s, c).clients == s.clients[c := s.clients[c].(watched := [])]
  {
  }

  lemma HandleKeeps(s: State, c: Id, r: Request)
    requires Consistent(s) && c in s.clients
    ensures Consistent(Handle(s, c, r).state)
  {
    hide Consistent, UnwatchAll, ApplyEffects, WatchKeys, Exec;
    match r
    case WatchRequest(keys) => WatchKeysKeep(s, c, keys);
    case MultiRequest => SameListsKeep(s, Multi(s, c).state);
    case DiscardRequest =>
      var t := With(s, c, s.clients[c].(multi := false, queue := []));
      SameListsKeep(s, t);
      UnwatchKeeps(t, c);
    case ExecRequest(es) => ExecKeeps(s, c, es);
    case UnwatchRequest =>
      if s.clients[c].multi {
        SameListsKeep(s, Enqueue(s, c, UNWATCH));
      } else {
        UnwatchKeeps(s, c);
        UnwatchClients(s, c);
        SameListsKeep(UnwatchAll(s, c), Unwatch(s, c));
      }
    case OtherRequest(cmd, es) =>
      if s.clients[c].multi {
        SameListsKeep(s, Enqueue(s, c, cmd));
      } else {
        EffectsKeep(s, c, es);
      }
    case BadRequest =>
  }

  lemma StepKeeps(s: State, step: Step)
    requires Consistent(s) && Possible(s, step)
    ensures Consistent(Next(s, step))
  {
    match step
    case Connect(c) =>
      assert forall p :: p in s.watchers ==> c !in s.watchers[p];
    case Disconnect(c) => UnwatchKeeps(s, c);
    case Issue(c, r) =>
      hide Consistent, Handle;
      HandleKeeps(s, c, r);
  }

  /** Over every run, a key's clients and a client's keys stay exact inverses. */
  lemma {:induction false} RunKeeps(s: State, steps: seq<Step>)
    requires Consistent(s) && Feasible(s, steps)
    ensures Consistent(After(s, steps))
    decreases |steps|
  {
    hide Consistent, Next, Possible;
    if steps != [] {
      StepKeeps(s, steps[0]);
      RunKeeps(Next(s, steps[0]), steps[1..]);
    }
  }

  // ----- A touched client cannot commit -----

  /** The steps that take the dirty flag off client c: its own UNWATCH outside MULTI, its EXEC, and leaving. */
  predicate Clears(s: State, step: Step, c: Id) {
    match step
    case Connect(d) => d == c
    case Disconnect(d) => d == c
    case Issue(d, r) =>
      d == c && c in s.clients && match r
        case UnwatchRequest => !s.clients[c].multi
        case ExecRequest(_) => s.clients[c].multi
        case _ => false
  }

  /** The effects that a step lets loose, and the state they start from. */
  function EffectsOf(s: State, step: Step): seq<Effect>
    requires Possible(s, step)
  {
    match step
    case Connect(_) => []
    case Disconnect(_) => []
    case Issue(d, r) =>
      match r
      case ExecRequest(es) => if s.clients[d].multi && !s.clients[d].dirty then es else []
      case OtherRequest(_, es) => if s.clients[d].multi then [] else es
      case _ => []
  }

  /** A touch of a watched key, or a flush, of its database or of all, that deletes a watched key. */
  predicate Concerns(e: Effect, watched: seq<Location>) {
    match e
    case Touched(p) => p in watched
    case Flushed(dbid, existing) => exists p :: p in watched && p in existing && (p.0 == dbid || dbid == -1)
    case Selected(_) => false
  }

  /** Some effect of a list concerns what client c watches; the lists do not change on the way. */
  predicate Hits(s: State, c: Id, es: seq<Effect>)
    requires c in s.clients
  {
    exists k :: 0 <= k < |es| && Concerns(es[k], s.clients[c].watched)
  }

  /** The clients that an effect marks are those that it concerns. */
  lemma HitConcerns(s: State, e: Effect, c: Id)
    requires c in s.clients
    ensures c in Hit(s, e) <==> Concerns(e, s.clients[c].watched)
  {
    var watched := s.clients[c].watched;
    if e.Flushed? {
      if Loses(watched, e.dbid, e.existing) {
        var k :| 0 <= k < |watched| && (e.dbid == -1 || watched[k].0 == e.dbid) && watched[k] in e.existing;
        assert watched[k] in watched;
      }
      forall p | p in watched && p in e.existing && (p.0 == e.dbid || e.dbid == -1)
        ensures Loses(watched, e.dbid, e.existing)
      {
        var k :| 0 <= k < |watched| && watched[k] == p;
      }
    }
  }

  /** A client is dirty after some effects exactly if it was before, or one of them hits a key it watches. */
  lemma {:induction false} EffectsMark(s: State, d: Id, es: seq<Effect>, c: Id)
    requires d in s.clients && c in s.clients
    ensures var t := ApplyEffects(s, d, es).clients[c]; var u := s.clients[c];
      && t.watched == u.watched && t.multi == u.multi && t.queue == u.queue
      && (t.dirty <==> u.dirty || Hits(s, c, es))
    decreases |es|
  {
    hide Watching, Losing, Concerns, Hit;
    if es != [] {
      var t := ApplyEffect(s, d, es[0]);
      EffectsMark(t, d, es[1..], c);
      ApplyMarks(s, d, es[0], c);
      HitConcerns(s, es[0], c);
      var watched := s.clients[c].watched;
      if Hits(s, c, es) {
        var k :| 0 <= k < |es| && Concerns(es[k], watched);
        if k > 0 {
          assert es[1..][k - 1] == es[k];
        }
      }
      if Hits(t, c, es[1..]) {
        var k :| 0 <= k < |es[1..]| && Concerns(es[1..][k], watched);
        assert es[k + 1] == es[1..][k];
      }
    }
  }

  lemma ApplyMarks(s: State, d: Id, e: Effect, c: Id)
    requires d in s.clients && c in s.clients
    ensures ApplyEffect(s, d, e).clients[c].dirty <==> s.clients[c].dirty || c in Hit(s, e)
    ensures ApplyEffect(s, d, e).clients[c].watched == s.clients[c].watched
  {
    hide Watching, Losing;
  }

  /** The step hits something that client c watches. */
  ghost predicate HitBy(s: State, step: Step, c: Id)
    requires Possible(s, step) && c in s.clients
  {
    Hits(s, c, EffectsOf(s, step))
  }

  /** Client c neither comes nor goes. */
  predicate Stays(steps: seq<Step>, c: Id) {
    forall k :: 0 <= k < |steps| ==> steps[k] != Connect(c) && steps[k] != Disconnect(c)
  }

  /** One step, exactly: the flag is set by a hit, and taken off only by the steps that clear it. */
  lemma StepMarks(s: State, step: Step, c: Id)
    requires Possible(s, step) && c in s.clients && step != Connect(c) && step != Disconnect(c)
    ensures c in Next(s, step).clients
    ensures Next(s, step).clients[c].dirty <==> !Clears(s, step, c) && (s.clients[c].dirty || HitBy(s, step, c))
  {
    match step
    case Connect(_) =>
    case Disconnect(d) => UnwatchClients(s, d);
    case Issue(d, r) => RequestMarks(s, d, r, c);
  }

  lemma RequestMarks(s: State, d: Id, r: Request, c: Id)
    requires d in s.clients && c in s.clients
    ensures c in Handle(s, d, r).state.clients
    ensures Handle(s, d, r).state.clients[c].dirty <==>
      !Clears(s, Issue(d, r), c) && (s.clients[c].dirty || HitBy(s, Issue(d, r), c))
  {
    hide Hits, ApplyEffects, WatchKeys, UnwatchAll;
    NoEffects(s, c);
    match r
    case WatchRequest(keys) => WatchKeysFlags(s, d, keys, c);
    case MultiRequest =>
    case DiscardRequest => UnwatchClients(With(s, d, s.clients[d].(multi := false, queue := [])), d);
    case UnwatchRequest => UnwatchClients(s, d);
    case OtherRequest(_, es) => EffectsMark(s, d, es, c);
    case ExecRequest(es) =>
      UnwatchClients(With(s, d, s.clients[d].(multi := false, dirty := false, queue := [])), d);
      UnwatchClients(s, d);
      EffectsMark(UnwatchAll(s, d), d, es, c);
      if c != d {
        HitsByWatched(s, UnwatchAll(s, d), c, es);
      }
    case BadRequest =>
  }

  lemma HitsByWatched(s: State, t: State, c: Id, es: seq<Effect>)
    requires c in s.clients && c in t.clients && t.clients[c].watched == s.clients[c].watched
    ensures Hits(t, c, es) == Hits(s, c, es)
  {
  }

  lemma NoEffects(s: State, c: Id)
    requires c in s.clients
    ensures !Hits(s, c, [])
  {
  }

  lemma {:induction false} WatchKeysFlags(s: State, d: Id, keys: seq<seq<byte>>, c: Id)
    requires d in s.clients && c in s.clients
    ensures WatchKeys(s, d, keys).clients[c].dirty == s.clients[c].dirty
    decreases |keys|
  {
    if keys != [] {
      WatchKeysFlags(WatchKey(s, d, keys[0]), d, keys[1..], c);
    }
  }

  /** No step of the run takes the flag off client c. */
  ghost predicate NeverCleared(s: State, steps: seq<Step>, c: Id)
    requires Feasible(s, steps)
    decreases |steps|
  {
    steps == [] || (!Clears(s, steps[0], c) && NeverCleared(Next(s, steps[0]), steps[1..], c))
  }

  /** Some step hits what client c watches at that moment, and neither it nor a later one takes the flag off. */
  ghost predicate Tainted(s: State, steps: seq<Step>, c: Id)
    requires Feasible(s, steps) && c in s.clients && Stays(steps, c)
    decreases |steps|
  {
    steps != [] &&
    (StepMarks(s, steps[0], c);
     (HitBy(s, steps[0], c) && NeverCleared(s, steps, c)) || Tainted(Next(s, steps[0]), steps[1..], c))
  }

  /** Over every run, a client is dirty for exactly one of two reasons. */
  lemma {:induction false} DirtyExactlyIf(s: State, steps: seq<Step>, c: Id)
    requires Feasible(s, steps) && c in s.clients && Stays(steps, c)
    ensures c in After(s, steps).clients
    ensures After(s, steps).clients[c].dirty <==>
      (s.clients[c].dirty && NeverCleared(s, steps, c)) || Tainted(s, steps, c)
    decreases |steps|
  {
    hide HitBy, Next, Clears, Possible;
    if steps != [] {
      StepMarks(s, steps[0], c);
      DirtyExactlyIf(Next(s, steps[0]), steps[1..], c);
    }
  }

  /**
    * The verdict of EXEC, over every run of any number of clients: it aborts exactly if, since the flag was last
    * cleared, a key was touched while the client watched it. An abort runs nothing; otherwise the whole queue runs.
    * Either way the transaction is over, nothing is watched and the flag is clear.
    */
  lemma ExecVerdict(s: State, steps: seq<Step>, c: Id, es: seq<Effect>)
    requires Feasible(s, steps) && c in s.clients && Stays(steps, c) && !s.clients[c].dirty
    requires c in After(s, steps).clients && After(s, steps).clients[c].multi
    ensures
      var t := After(s, steps);
      var o := Exec(t, c, es);
      && c in o.state.clients
      && (if Tainted(s, steps, c) then o.reply == Aborted else o.reply == Executed(t.clients[c].queue))
      && o.state.clients[c] == Client(o.state.clients[c].db, false, false, [], [])
  {
    hide Tainted, ApplyEffects, UnwatchAll;
    DirtyExactlyIf(s, steps, c);
    var t := After(s, steps);
    UnwatchClients(t, c);
    UnwatchClients(With(t, c, t.clients[c].(multi := false, dirty := false, queue := [])), c);
    EffectsMark(UnwatchAll(t, c), c, es, c);
  }

  /** The effect deletes a key that exists, with its database, FLUSHDB, or with all, FLUSHALL. */
  predicate FlushOf(e: Effect, p: Location) {
    e.Flushed? && p in e.existing && (e.dbid == p.0 || e.dbid == -1)
  }

  /** The step writes the key or deletes it with its database. */
  predicate Changes(s: State, step: Step, p: Location)
    requires Possible(s, step)
  {
    exists e :: e in EffectsOf(s, step) && (e == Touched(p) || FlushOf(e, p))
  }

  lemma ChangesHit(s: State, step: Step, p: Location, c: Id)
    requires Possible(s, step) && c in s.clients && p in s.clients[c].watched && Changes(s, step, p)
    ensures HitBy(s, step, c)
  {
    hide EffectsOf;
    var e :| e in EffectsOf(s, step) && (e == Touched(p) || FlushOf(e, p));
    assert Concerns(e, s.clients[c].watched);
    var k :| 0 <= k < |EffectsOf(s, step)| && EffectsOf(s, step)[k] == e;
  }

  /**
    * A touch of a watched key, or a flush that deletes one, then anything but the client's own UNWATCH or EXEC: the
    * next EXEC aborts.
    */
  lemma TouchedCannotCommit(s: State, step: Step, p: Location, steps: seq<Step>, c: Id, es: seq<Effect>)
    requires c in s.clients && p in s.clients[c].watched && Possible(s, step) && Changes(s, step, p)
    requires Feasible(Next(s, step), steps) && Stays([step] + steps, c)
    requires !Clears(s, step, c) && NeverCleared(Next(s, step), steps, c)
    ensures var t := After(Next(s, step), steps);
      c in t.clients && (t.clients[c].multi ==> Exec(t, c, es).reply == Aborted)
  {
    hide Next, Clears, EffectsOf, Tainted, Changes;
    assert step == ([step] + steps)[0];
    assert forall k :: 0 <= k < |steps| ==> steps[k] == ([step] + steps)[k + 1];
    StepMarks(s, step, c);
    ChangesHit(s, step, p, c);
    DirtyExactlyIf(Next(s, step), steps, c);
  }

  /** DISCARD leaves the flag on: a later transaction that watches only an untouched key is aborted as well. */
  lemma DiscardKeepsFlag(a: seq<byte>, b: seq<byte>)
    requires a != b
    ensures
      var s := State(map[1 := IDLE], map[]);
      var t := Watch(s, 1, [a]).state;
      var u := ApplyEffects(t, 1, [Touched((0, a))]);
      var v := Discard(Multi(u, 1).state, 1).state;
      var x := Multi(Watch(v, 1, [b]).state, 1).state;
      x.clients[1].watched == [(0, b)] && Exec(x, 1, []).reply == Aborted
  {
    var s := State(map[1 := IDLE], map[]);
    WatchOne(s, 1, a);
    var t := Watch(s, 1, [a]).state;
    assert [] + [(0, a)] == [(0, a)];
    OneEffect(t, 1, Touched((0, a)));
    var u := ApplyEffects(t, 1, [Touched((0, a))]);
    assert 1 in Watching(t, (0, a));
    var v := Discard(Multi(u, 1).state, 1).state;
    assert v.clients[1] == IDLE.(dirty := true);
    WatchOne(v, 1, b);
    assert [] + [(0, b)] == [(0, b)];
  }

  lemma WatchOne(s: State, c: Id, key: seq<byte>)
    requires c in s.clients && !s.clients[c].multi
    ensures Watch(s, c, [key]).state == WatchKey(s, c, key)
  {
    assert [key][1..] == [];
    assert WatchKeys(WatchKey(s, c, key), c, []) == WatchKey(s, c, key);
    assert WatchKeys(s, c, [key]) == WatchKeys(WatchKey(s, c, key), c, [key][1..]);
  }

  lemma OneEffect(s: State, c: Id, e: Effect)
    requires c in s.clients
    ensures ApplyEffects(s, c, [e]) == ApplyEffect(s, c, e)
  {
    assert [e][1..] == [];
    assert ApplyEffects(ApplyEffect(s, c, e), c, []) == ApplyEffect(s, c, e);
  }
}
