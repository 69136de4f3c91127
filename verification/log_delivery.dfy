/** Chat logs in the store: one writer that appends in several store writes, and readers that page through windows. */
module LogDelivery {
  import opened Bytes
  import ListCodec

  type Message = seq<string>

  /** A line as the reader returns it: its number and the decoded fields. */
  type Line = (int, seq<string>)

  /** One hash of the store. */
  datatype Store = Store(begin: Option<int>, end: Option<int>, entries: map<int, string>)

  const INIT_LOG_LINES := 30
  const UPDATE_LOG_LINES := 5
  const OLD_LOG_LINES := 60

  // ----- The writer -----

  /** `pending`: the line is stored and the counter advanced, but `end` is not yet written. */
  datatype Writer = Writer(logEndID: int, pending: bool)

  datatype State = State(store: Store, writer: Option<Writer>)

  /** A daemon starts, perhaps after another one that stopped anywhere. */
  function Start(s: State): State {
    match s.store.end
    case None => State(s.store.(begin := Some(0)), Some(Writer(0, false)))
    case Some(e) => State(s.store, Some(Writer(e, false)))
  }

  /** The first store write of appendLog. */
  function Put(s: State, msg: Message): State
    requires s.writer.Some?
  {
    var w := s.writer.value;
    State(s.store.(entries := s.store.entries[w.logEndID := ListCodec.EncodeList(msg)]),
          Some(Writer(w.logEndID + 1, true)))
  }

  /** The second one. */
  function Publish(s: State): State
    requires s.writer.Some?
  {
    var w := s.writer.value;
    State(s.store.(end := Some(w.logEndID)), Some(Writer(w.logEndID, false)))
  }

  datatype Step = StartStep | PutStep(msg: Message) | PublishStep

  predicate Possible(s: State, step: Step) {
    match step
    case StartStep => true
    case PutStep(_) => s.writer.Some? && !s.writer.value.pending
    case PublishStep => s.writer.Some? && s.writer.value.pending
  }

  function Next(s: State, step: Step): State
    requires Possible(s, step)
  {
    match step
    case StartStep => Start(s)
    case PutStep(msg) => Put(s, msg)
    case PublishStep => Publish(s)
  }

  /** Every line below `end` is there, and the writer stands right at the end. */
  ghost predicate Sound(s: State) {
    && (s.store.end.Some? ==>
          && s.store.begin.Some? && s.store.begin.value <= s.store.end.value
          && forall i :: s.store.begin.value <= i < s.store.end.value ==> i in s.store.entries)
    && (s.writer.Some? ==>
          && s.store.begin.Some?
          && var at := if s.writer.value.pending then s.writer.value.logEndID - 1 else s.writer.value.logEndID;
             (if s.store.end.Some? then at == s.store.end.value else at == 0 && s.store.begin.value == 0)
             && (s.writer.value.pending ==> at in s.store.entries))
  }

  /** What was readable before is readable later, and unchanged. */
  ghost predicate Later(s: Store, t: Store) {
    s.end.Some? ==>
      && s.begin.Some? && t.begin == s.begin && t.end.Some? && s.end.value <= t.end.value
      && forall i :: s.begin.value <= i < s.end.value ==>
        i in s.entries && i in t.entries && t.entries[i] == s.entries[i]
  }

  lemma StepKeeps(s: State, step: Step)
    requires Sound(s) && Possible(s, step)
    ensures Sound(Next(s, step)) && Later(s.store, Next(s, step).store)
  {
    hide ListCodec.EncodeList;
    var t := Next(s, step);
    if s.store.end.Some? {
      assert forall i :: s.store.begin.value <= i < s.store.end.value ==> t.store.entries[i] == s.store.entries[i];
    }
  }

  lemma LaterTransitive(s: Store, t: Store, u: Store)
    requires Later(s, t) && Later(t, u)
    ensures Later(s, u)
  {
  }

  // ----- The reader -----

  function Max(a: int, b: int): int { if a > b then a else b }

  function Min(a: int, b: int): int { if a < b then a else b }

  /** The lines of [begin, end) that are there; missing ones are skipped. */
  function Window(entries: map<int, string>, begin: int, end: int): seq<Line>
    decreases end - begin
  {
    if begin >= end then []
    else (if begin in entries then [(begin, ListCodec.DecodeList(entries[begin]))] else []) +
         Window(entries, begin + 1, end)
  }

  /** [begin, end), every number exactly once and in order. */
  function Exact(entries: map<int, string>, begin: int, end: int): (r: seq<Line>)
    requires begin <= end && forall i :: begin <= i < end ==> i in entries
    ensures |r| == end - begin
    ensures forall k :: 0 <= k < |r| ==> r[k] == (begin + k, ListCodec.DecodeList(entries[begin + k]))
  {
    seq(end - begin, k requires 0 <= k < end - begin => (begin + k, ListCodec.DecodeList(entries[begin + k])))
  }

  lemma {:induction false} WindowIsExact(entries: map<int, string>, begin: int, end: int)
    requires begin <= end && forall i :: begin <= i < end ==> i in entries
    ensures Window(entries, begin, end) == Exact(entries, begin, end)
    decreases end - begin
  {
    hide ListCodec.DecodeList;
    if begin < end {
      WindowIsExact(entries, begin + 1, end);
      var first: Line := (begin, ListCodec.DecodeList(entries[begin]));
      assert [first] + Exact(entries, begin + 1, end) == Exact(entries, begin, end);
    }
  }

  /** The window of an update: the bounds come from one read of the store, the lines from a later one. */
  function After(meta: Store, data: Store, known: int): seq<Line> {
    if meta.begin.None? || meta.end.None? then []
    else
      var begin := Max(meta.begin.value, known);
      Window(data.entries, begin, Min(meta.end.value, begin + UPDATE_LOG_LINES))
  }

  function Recent(meta: Store, data: Store): seq<Line> {
    if meta.begin.None? || meta.end.None? then []
    else Window(data.entries, Max(meta.begin.value, meta.end.value - INIT_LOG_LINES), meta.end.value)
  }

  function Before(meta: Store, data: Store, known: int): seq<Line> {
    if meta.begin.None? || meta.end.None? then []
    else
      var end := Min(meta.end.value, known);
      Window(data.entries, Max(meta.begin.value, end - OLD_LOG_LINES), end)
  }

  lemma NoWindow(entries: map<int, string>, begin: int, end: int)
    requires begin >= end
    ensures Window(entries, begin, end) == []
  {
  }

  lemma WindowNext(entries: map<int, string>, begin: int, end: int, before: seq<Line>)
    requires begin < end
    ensures before + Window(entries, begin, end) ==
      (if begin in entries then before + [(begin, ListCodec.DecodeList(entries[begin]))] else before) +
      Window(entries, begin + 1, end)
  {
    hide ListCodec.DecodeList;
  }

  method GetLog(entries: map<int, string>, begin: int, end: int) returns (r: seq<Line>)
    ensures r == Window(entries, begin, end)
  {
    hide ListCodec.DecodeList, Window;
    NoWindow(entries, end, end);
    if begin >= end {
      NoWindow(entries, begin, end);
      return [];
    }
    r := [];
    var id := begin;
    while id < end
      invariant begin <= id <= end
      invariant r + Window(entries, id, end) == Window(entries, begin, end)
    {
      WindowNext(entries, id, end, r);
      if id in entries {
        r := r + [(id, ListCodec.DecodeList(entries[id]))];
      }
      id := id + 1;
    }
    assert r + [] == r;
  }

  method GetRecentLog(meta: Store, data: Store) returns (r: seq<Line>)
    ensures r == Recent(meta, data)
  {
    if meta.begin.None? || meta.end.None? { return []; }
    var readingEnd := meta.end.value;
    var readingBegin := Max(meta.begin.value, readingEnd - INIT_LOG_LINES);
    r := GetLog(data.entries, readingBegin, readingEnd);
  }

  method GetLogAfter(meta: Store, data: Store, knownLastID: int) returns (r: seq<Line>)
    ensures r == After(meta, data, knownLastID)
  {
    if meta.begin.None? || meta.end.None? { return []; }
    var readingBegin := Max(meta.begin.value, knownLastID);
    var readingEnd := Min(meta.end.value, readingBegin + UPDATE_LOG_LINES);
    r := GetLog(data.entries, readingBegin, readingEnd);
  }

  method GetLogBefore(meta: Store, data: Store, knownFirstID: int) returns (r: seq<Line>)
    ensures r == Before(meta, data, knownFirstID)
  {
    if meta.begin.None? || meta.end.None? { return []; }
    var readingEnd := Min(meta.end.value, knownFirstID);
    var readingBegin := Max(meta.begin.value, readingEnd - OLD_LOG_LINES);
    r := GetLog(data.entries, readingBegin, readingEnd);
  }

  // ----- A client that polls while the writer writes -----

  /** What the client asks for next, and all it has been given. */
  datatype Client = Client(next: int, received: seq<Line>)

  function Receive(c: Client, lines: seq<Line>): Client {
    if lines == [] then c else Client(lines[|lines| - 1].0 + 1, c.received + lines)
  }

  /** `meta`: the bounds that a poll in progress has read. */
  datatype World = World(state: State, client: Client, meta: Option<Store>)

  datatype Event = Write(step: Step) | ReadBounds | ReadLines

  predicate CanHappen(w: World, e: Event) {
    match e
    case Write(step) => Possible(w.state, step)
    case ReadBounds => w.meta.None?
    case ReadLines => w.meta.Some?
  }

  function Happen(w: World, e: Event): World
    requires CanHappen(w, e)
  {
    match e
    case Write(step) => w.(state := Next(w.state, step))
    case ReadBounds => w.(meta := Some(w.state.store))
    case ReadLines =>
      w.(client := Receive(w.client, After(w.meta.value, w.state.store, w.client.next)), meta := None)
  }

  predicate CanRun(w: World, es: seq<Event>)
    decreases |es|
  {
    es == [] || (CanHappen(w, es[0]) && CanRun(Happen(w, es[0]), es[1..]))
  }

  function Run(w: World, es: seq<Event>): World
    requires CanRun(w, es)
    decreases |es|
  {
    if es == [] then w else Run(Happen(w, es[0]), es[1..])
  }

  /** The client, which began to ask at `first`, has exactly the lines [first, next) of the store. */
  ghost predicate Delivered(w: World, first: int) {
    && Sound(w.state) && w.state.store.end.Some?
    && w.state.store.begin.value <= first <= w.client.next <= w.state.store.end.value
    && w.client.received == Exact(w.state.store.entries, first, w.client.next)
    && (w.meta.Some? ==> w.meta.value.end.Some? && Later(w.meta.value, w.state.store))
  }

  lemma ExactAgrees(a: map<int, string>, b: map<int, string>, begin: int, end: int)
    requires begin <= end && forall i :: begin <= i < end ==> i in a && i in b && a[i] == b[i]
    ensures Exact(a, begin, end) == Exact(b, begin, end)
  {
    hide ListCodec.DecodeList;
  }

  lemma ExactJoins(entries: map<int, string>, a: int, b: int, c: int)
    requires a <= b <= c && forall i :: a <= i < c ==> i in entries
    ensures Exact(entries, a, b) + Exact(entries, b, c) == Exact(entries, a, c)
  {
    hide ListCodec.DecodeList;
  }

  /** An update gives exactly the next lines, whatever was written between its two reads. */
  lemma AfterIsExact(meta: Store, data: Store, known: int)
    requires meta.end.Some? && Later(meta, data) && meta.begin.value <= known
    ensures var end := Max(known, Min(meta.end.value, known + 5));
      && (forall i :: known <= i < end ==> i in data.entries)
      && After(meta, data, known) == Exact(data.entries, known, end)
  {
    hide ListCodec.DecodeList, Window, Exact;
    var end := Min(meta.end.value, known + 5);
    if known <= end {
      WindowIsExact(data.entries, known, end);
    } else {
      WindowIsExact(data.entries, known, known);
      NoWindow(data.entries, known, end);
      NoWindow(data.entries, known, known);
    }
  }

  /** A first read gives exactly the last 30 lines, or all if there are fewer, whatever is written meanwhile. */
  lemma RecentIsExact(meta: Store, data: Store)
    requires meta.end.Some? && Later(meta, data) && meta.begin.value <= meta.end.value
    ensures var begin := Max(meta.begin.value, meta.end.value - 30);
      && (forall i :: begin <= i < meta.end.value ==> i in data.entries)
      && Recent(meta, data) == Exact(data.entries, begin, meta.end.value)
  {
    hide ListCodec.DecodeList, Window, Exact;
    WindowIsExact(data.entries, Max(meta.begin.value, meta.end.value - 30), meta.end.value);
  }

  /** Reading backwards gives exactly the 60 lines before a known one, or all of them if there are fewer. */
  lemma BeforeIsExact(meta: Store, data: Store, known: int)
    requires meta.end.Some? && Later(meta, data) && meta.begin.value <= known <= meta.end.value
    ensures var begin := Max(meta.begin.value, known - 60);
      && (forall i :: begin <= i < known ==> i in data.entries)
      && Before(meta, data, known) == Exact(data.entries, begin, known)
  {
    hide ListCodec.DecodeList, Window, Exact;
    WindowIsExact(data.entries, Max(meta.begin.value, known - 60), known);
  }

  lemma ReceiveMoves(c: Client, entries: map<int, string>, end: int)
    requires c.next <= end && forall i :: c.next <= i < end ==> i in entries
    ensures Receive(c, Exact(entries, c.next, end)) == Client(end, c.received + Exact(entries, c.next, end))
  {
    hide ListCodec.DecodeList;
    if c.next == end {
      assert c.received + Exact(entries, c.next, end) == c.received;
    }
  }

  lemma EventKeeps(w: World, e: Event, first: int)
    requires Delivered(w, first) && CanHappen(w, e)
    ensures Delivered(Happen(w, e), first)
  {
    hide ListCodec.DecodeList, Exact, After, Receive, Next, Possible;
    var c := w.client;
    match e
    case Write(step) =>
      var t := Next(w.state, step).store;
      StepKeeps(w.state, step);
      ExactAgrees(w.state.store.entries, t.entries, first, c.next);
      if w.meta.Some? {
        LaterTransitive(w.meta.value, w.state.store, t);
      }
    case ReadBounds =>
    case ReadLines =>
      var meta := w.meta.value;
      var entries := w.state.store.entries;
      AfterIsExact(meta, w.state.store, c.next);
      var end := Max(c.next, Min(meta.end.value, c.next + 5));
      ReceiveMoves(c, entries, end);
      ExactJoins(entries, first, c.next, end);
  }

  /**
    * For every interleaving of the writer's store writes, restarts of the writer, and the two reads of each poll: the
    * client holds a prefix of the log from where it began, without gaps or repetitions and in order.
    */
  lemma {:induction false} EveryRunDelivers(w: World, es: seq<Event>, first: int)
    requires Delivered(w, first) && CanRun(w, es)
    ensures Delivered(Run(w, es), first)
    decreases |es|
  {
    hide Delivered, Happen, CanHappen;
    if es != [] {
      EventKeeps(w, es[0], first);
      EveryRunDelivers(Happen(w, es[0]), es[1..], first);
    }
  }

  /** k polls in a row with nothing written between them. */
  function Poll(store: Store, c: Client, k: nat): Client {
    if k == 0 then c
    else
      var d := Poll(store, c, k - 1);
      Receive(d, After(store, store, d.next))
  }

  lemma LaterSelf(s: State)
    requires Sound(s)
    ensures Later(s.store, s.store)
  {
  }

  lemma {:induction false} PollMoves(s: State, c: Client, k: nat)
    requires Sound(s) && s.store.end.Some? && s.store.begin.value <= c.next <= s.store.end.value
    ensures Poll(s.store, c, k).next == Min(s.store.end.value, c.next + 5 * k)
  {
    hide Exact, After, Receive, ListCodec.DecodeList;
    if k > 0 {
      PollMoves(s, c, k - 1);
      var d := Poll(s.store, c, k - 1);
      LaterSelf(s);
      AfterIsExact(s.store, s.store, d.next);
      var end := Max(d.next, Min(s.store.end.value, d.next + 5));
      ReceiveMoves(d, s.store.entries, end);
    }
  }

  /** n outstanding lines are drained by ceil(n / 5) polls, and by no fewer. */
  lemma DrainsInCeilPolls(s: State, c: Client, k: nat)
    requires Sound(s) && s.store.end.Some? && s.store.begin.value <= c.next <= s.store.end.value
    ensures var n := s.store.end.value - c.next;
      Poll(s.store, c, k).next == s.store.end.value <==> k >= (n + 4) / 5
  {
    hide Poll;
    PollMoves(s, c, k);
  }

  // ----- Reading the whole log backwards -----

  /** The recent lines, then older and older ones until there are no more: the whole log, each line exactly once. */
  method ReadBackwards(s: State) returns (lines: seq<Line>)
    requires Sound(s) && s.store.end.Some?
    ensures lines == Exact(s.store.entries, s.store.begin.value, s.store.end.value)
  {
    hide ListCodec.DecodeList, Window, Exact;
    var b, e, entries := s.store.begin.value, s.store.end.value, s.store.entries;
    lines := GetRecentLog(s.store, s.store);
    LaterSelf(s);
    RecentIsExact(s.store, s.store);
    if lines == [] {
      return;
    }
    var known := lines[0].0;
    while true
      invariant b <= known <= e && lines == Exact(entries, known, e)
      decreases known - b
    {
      var older := GetLogBefore(s.store, s.store, known);
      BeforeIsExact(s.store, s.store, known);
      ExactJoins(entries, Max(b, known - 60), known, e);
      if older == [] { break; }
      lines := older + lines;
      known := older[0].0;
    }
  }

  // ----- The writer's class -----

  class Channel {
    var store: Store
    var logEndID: int

    constructor (store: Store)
      ensures State(this.store, Some(Writer(logEndID, false))) == Start(State(store, None))
    {
      match store.end
      case None =>
        this.store := store.(begin := Some(0));
        logEndID := 0;
      case Some(id) =>
        this.store := store;
        logEndID := id;
    }

    function View(): State
      reads this
    {
      State(store, Some(Writer(logEndID, false)))
    }

    /** One whole appendLog is its two store writes in a row, and makes exactly one more line readable. */
    method AppendLog(msg: Message)
      requires Sound(View())
      modifies this
      ensures View() == Publish(Put(old(View()), msg)) && Sound(View())
      ensures Later(old(store), store) && store.end == Some(old(logEndID) + 1)
      ensures old(logEndID) in store.entries && store.entries[old(logEndID)] == ListCodec.EncodeList(msg)
    {
      hide ListCodec.EncodeList;
      ghost var s := View();
      var newLogID := logEndID;
      store := store.(entries := store.entries[newLogID := ListCodec.EncodeList(msg)]);
      logEndID := logEndID + 1;
      store := store.(end := Some(logEndID));
      StepKeeps(s, PutStep(msg));
      StepKeeps(Put(s, msg), PublishStep);
      LaterTransitive(s.store, Put(s, msg).store, store);
    }
  }
}
