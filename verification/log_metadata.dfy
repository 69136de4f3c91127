/** Long-poll waiters of one user: who waits, who is woken, and what a waiter is told when it leaves. */
module LogMetadata {
  import opened Bytes
  import opened Sequences

  type Channel = (string, string)
  type ChatIDs = map<Channel, int>
  type Id = int

  /** The last line number of each joined channel, and the events of the waiting threads with their flags. */
  datatype State = State(lastChatIDs: ChatIDs, waiting: seq<Id>, isSet: map<Id, bool>)

  // ----- The steps, each under the lock -----

  /** What the first locked section of waitForChange does: an answer at once, or a wait. */
  datatype Entry = Answered(ids: ChatIDs) | Waits

  function EntryOf(s: State, requested: ChatIDs): Entry {
    if requested != s.lastChatIDs then Answered(s.lastChatIDs) else Waits
  }

  function Enter(s: State, t: Id, requested: ChatIDs): State {
    if EntryOf(s, requested).Answered? then s
    else s.(waiting := s.waiting + [t], isSet := s.isSet[t := false])
  }

  /** The second locked section: the thread takes its event off the list. */
  function Leave(s: State, t: Id): State {
    s.(waiting := Without(s.waiting, t), isSet := s.isSet - {t})
  }

  /** None: nothing has changed. */
  function Reply(s: State, t: Id): Option<ChatIDs>
    requires t in s.isSet
  {
    if s.isSet[t] then Some(s.lastChatIDs) else None
  }

  function Wake(s: State): State {
    s.(isSet := map t | t in s.isSet :: s.isSet[t] || t in s.waiting)
  }

  function NewLogID(s: State, channel: Channel, id: int): State {
    Wake(s.(lastChatIDs := s.lastChatIDs[channel := id]))
  }

  /** A stored number of 0 counts as no entry: the channel stays, and nobody is woken. */
  predicate Closes(s: State, channel: Channel) {
    channel in s.lastChatIDs && s.lastChatIDs[channel] != 0
  }

  function ChannelClosed(s: State, channel: Channel): State {
    if Closes(s, channel) then Wake(s.(lastChatIDs := s.lastChatIDs - {channel})) else s
  }

  datatype Step =
    | EnterStep(t: Id, requested: ChatIDs)
    | LeaveStep(t: Id)
    | NewLogStep(channel: Channel, id: int)
    | ClosedStep(channel: Channel)

  predicate Possible(s: State, step: Step) {
    match step
    case EnterStep(t, _) => t !in s.isSet
    case LeaveStep(t) => t in s.waiting
    case NewLogStep(_, _) => true
    case ClosedStep(_) => true
  }

  function Next(s: State, step: Step): State {
    match step
    case EnterStep(t, requested) => Enter(s, t, requested)
    case LeaveStep(t) => Leave(s, t)
    case NewLogStep(channel, id) => NewLogID(s, channel, id)
    case ClosedStep(channel) => ChannelClosed(s, channel)
  }

  /** The steps that tell waiters of a change. */
  predicate Notifies(s: State, step: Step) {
    match step
    case NewLogStep(_, _) => true
    case ClosedStep(channel) => Closes(s, channel)
    case _ => false
  }

  // ----- The list holds exactly the waiters -----

  ghost predicate Valid(s: State) {
    Distinct(s.waiting) && forall t :: t in s.waiting <==> t in s.isSet
  }

  lemma StepKeeps(s: State, step: Step)
    requires Valid(s) && Possible(s, step)
    ensures Valid(Next(s, step))
    ensures forall t :: t in Next(s, step).waiting <==>
      (t in s.waiting && step != LeaveStep(t)) ||
      (step.EnterStep? && step.t == t && EntryOf(s, step.requested).Waits?)
  {
    match step
    case EnterStep(t, requested) =>
      assert forall x :: x in s.waiting + [t] <==> x in s.waiting || x == t;
    case LeaveStep(t) =>
    case NewLogStep(_, _) =>
    case ClosedStep(_) =>
  }

  predicate Feasible(s: State, steps: seq<Step>)
    decreases |steps|
  {
    steps == [] || (Possible(s, steps[0]) && Feasible(Next(s, steps[0]), steps[1..]))
  }

  function After(s: State, steps: seq<Step>): State
    decreases |steps|
  {
    if steps == [] then s else After(Next(s, steps[0]), steps[1..])
  }

  predicate NeverLeaves(steps: seq<Step>, t: Id) {
    forall k :: 0 <= k < |steps| ==> steps[k] != LeaveStep(t)
  }

  /** Some step of the run is thread t's registration, and t has not left since. */
  ghost predicate Joined(s: State, steps: seq<Step>, t: Id)
    decreases |steps|
  {
    steps != [] &&
    ((steps[0].EnterStep? && steps[0].t == t && EntryOf(s, steps[0].requested).Waits? && NeverLeaves(steps[1..], t)) ||
     Joined(Next(s, steps[0]), steps[1..], t))
  }

  /** Over every run: a thread is on the list, once, exactly if it has registered and not left since. */
  lemma {:induction false} ListedExactlyIf(s: State, steps: seq<Step>, t: Id)
    requires Valid(s) && Feasible(s, steps)
    ensures Valid(After(s, steps)) && Distinct(After(s, steps).waiting)
    ensures t in After(s, steps).waiting <==> (t in s.waiting && NeverLeaves(steps, t)) || Joined(s, steps, t)
    decreases |steps|
  {
    hide Next, Possible, EntryOf;
    if steps != [] {
      StepKeeps(s, steps[0]);
      ListedExactlyIf(Next(s, steps[0]), steps[1..], t);
      assert steps == [steps[0]] + steps[1..];
      assert NeverLeaves(steps, t) <==> steps[0] != LeaveStep(t) && NeverLeaves(steps[1..], t);
    }
  }

  /** Thread t neither comes nor goes. */
  predicate Absent(steps: seq<Step>, t: Id) {
    forall k :: 0 <= k < |steps| ==> steps[k] != LeaveStep(t) && !(steps[k].EnterStep? && steps[k].t == t)
  }

  ghost predicate SomeNotify(s: State, steps: seq<Step>)
    decreases |steps|
  {
    steps != [] && (Notifies(s, steps[0]) || SomeNotify(Next(s, steps[0]), steps[1..]))
  }

  lemma StepWakes(s: State, step: Step, t: Id)
    requires Valid(s) && Possible(s, step) && t in s.waiting
    requires step != LeaveStep(t) && !(step.EnterStep? && step.t == t)
    ensures t in Next(s, step).waiting && t in Next(s, step).isSet
    ensures Next(s, step).isSet[t] == (s.isSet[t] || Notifies(s, step))
    ensures !Notifies(s, step) ==> Next(s, step).lastChatIDs == s.lastChatIDs
  {
    StepKeeps(s, step);
  }

  /** While a thread waits, its flag says exactly whether a notifying step has happened. */
  lemma {:induction false} FlagExactlyIf(s: State, steps: seq<Step>, t: Id)
    requires Valid(s) && Feasible(s, steps) && t in s.waiting && Absent(steps, t)
    ensures Valid(After(s, steps)) && t in After(s, steps).waiting && t in After(s, steps).isSet
    ensures After(s, steps).isSet[t] == (s.isSet[t] || SomeNotify(s, steps))
    ensures !SomeNotify(s, steps) ==> After(s, steps).lastChatIDs == s.lastChatIDs
    decreases |steps|
  {
    hide Next, Possible, Notifies;
    if steps != [] {
      assert steps[0] != LeaveStep(t);
      StepWakes(s, steps[0], t);
      StepKeeps(s, steps[0]);
      assert forall k :: 0 <= k < |steps[1..]| ==> steps[1..][k] == steps[k + 1];
      FlagExactlyIf(Next(s, steps[0]), steps[1..], t);
    }
  }

  /**
    * No wake-up is lost, over every interleaving: a thread that had to wait is told "nothing new" exactly if no
    * notifying step came between its registration and its removal, and then what it knew is still true; otherwise it
    * gets the numbers as they are at its removal.
    */
  lemma NoLostWakeUp(s: State, t: Id, requested: ChatIDs, steps: seq<Step>)
    requires Valid(s) && t !in s.isSet && EntryOf(s, requested).Waits?
    requires Feasible(Enter(s, t, requested), steps) && Absent(steps, t)
    ensures var u := Enter(s, t, requested); var v := After(u, steps);
      && t in v.waiting && t in v.isSet
      && Reply(v, t) == (if SomeNotify(u, steps) then Some(v.lastChatIDs) else None)
      && (Reply(v, t) == None ==> v.lastChatIDs == requested)
      && t !in Leave(v, t).waiting
  {
    hide After, SomeNotify;
    var u := Enter(s, t, requested);
    StepKeeps(s, EnterStep(t, requested));
    FlagExactlyIf(u, steps, t);
  }

  // ----- The numbers -----

  function NumberOf(s: State, channel: Channel): Option<int> {
    if channel in s.lastChatIDs then Some(s.lastChatIDs[channel]) else None
  }

  /** What the announcements of a run say about a channel: the last number announced, unless the channel was closed
      since with a number other than 0. */
  function Announced(known: Option<int>, steps: seq<Step>, channel: Channel): Option<int>
    decreases |steps|
  {
    if steps == [] then known
    else
      match steps[0]
      case NewLogStep(c, id) => Announced(if c == channel then Some(id) else known, steps[1..], channel)
      case ClosedStep(c) =>
        Announced(if c == channel && known != Some(0) then None else known, steps[1..], channel)
      case _ => Announced(known, steps[1..], channel)
  }

  /** An announcement gives the channel exactly the announced number, and leaves every other channel's alone. */
  lemma NumberRecorded(s: State, channel: Channel, id: int)
    ensures NumberOf(NewLogID(s, channel, id), channel) == Some(id)
    ensures forall c :: c != channel ==> NumberOf(NewLogID(s, channel, id), c) == NumberOf(s, c)
  {
    hide Wake;
    WakeKeepsNumbers(s.(lastChatIDs := s.lastChatIDs[channel := id]));
  }

  lemma WakeKeepsNumbers(s: State)
    ensures Wake(s).lastChatIDs == s.lastChatIDs
  {
  }

  lemma StepNumbers(s: State, step: Step, channel: Channel)
    ensures NumberOf(Next(s, step), channel) == Announced(NumberOf(s, channel), [step], channel)
  {
    hide Wake;
    assert [step][1..] == [];
    match step
    case NewLogStep(c, id) => NumberRecorded(s, c, id);
    case ClosedStep(c) =>
      WakeKeepsNumbers(s.(lastChatIDs := s.lastChatIDs - {c}));
    case _ =>
  }

  /** Over every run, the number of every channel is the one that the announcements say. */
  lemma {:induction false} NumbersAreAnnounced(s: State, steps: seq<Step>, channel: Channel)
    ensures NumberOf(After(s, steps), channel) == Announced(NumberOf(s, channel), steps, channel)
    decreases |steps|
  {
    hide Next, NumberOf;
    if steps != [] {
      StepNumbers(s, steps[0], channel);
      assert [steps[0]][1..] == [];
      NumbersAreAnnounced(Next(s, steps[0]), steps[1..], channel);
    }
  }

  // ----- A channel that is closed -----

  predicate NoLine(steps: seq<Step>, channel: Channel) {
    forall k :: 0 <= k < |steps| ==> !(steps[k].NewLogStep? && steps[k].channel == channel)
  }

  /** Without a new line, a channel that is absent stays absent, and one whose number is 0 can never be removed. */
  lemma {:induction false} NothingCloses(s: State, channel: Channel, steps: seq<Step>)
    requires NoLine(steps, channel) && (channel in s.lastChatIDs ==> s.lastChatIDs[channel] == 0)
    ensures channel in After(s, steps).lastChatIDs <==> channel in s.lastChatIDs
    decreases |steps|
  {
    if steps != [] {
      assert !(steps[0].NewLogStep? && steps[0].channel == channel);
      assert forall k :: 0 <= k < |steps[1..]| ==> steps[1..][k] == steps[k + 1];
      NothingCloses(Next(s, steps[0]), channel, steps[1..]);
    }
  }

  /** A closed channel is still listed later on exactly if its number was 0 when it was closed. */
  lemma StaysExactlyIf(s: State, channel: Channel, steps: seq<Step>)
    requires NoLine(steps, channel)
    ensures channel in After(Next(s, ClosedStep(channel)), steps).lastChatIDs <==>
      channel in s.lastChatIDs && s.lastChatIDs[channel] == 0
  {
    hide After;
    NothingCloses(Next(s, ClosedStep(channel)), channel, steps);
  }

  /** A channel with its first line, number 0, a thread that waits, and the channel is closed: nobody is told. */
  lemma FirstLineStays(s: State, channel: Channel, t: Id)
    requires Valid(s) && t !in s.isSet
    ensures var u := NewLogID(s, channel, 0);
      var v := After(u, [EnterStep(t, u.lastChatIDs), ClosedStep(channel)]);
      channel in v.lastChatIDs && t in v.waiting && t in v.isSet && !v.isSet[t]
  {
    hide Wake;
    var u := NewLogID(s, channel, 0);
    var steps := [EnterStep(t, u.lastChatIDs), ClosedStep(channel)];
    assert steps[1..] == [ClosedStep(channel)] && [ClosedStep(channel)][1..] == [];
    NumberSet(s, channel);
    var e := Next(u, steps[0]);
    assert After(u, steps) == After(e, [ClosedStep(channel)]) == After(Next(e, ClosedStep(channel)), []);
  }

  lemma NumberSet(s: State, channel: Channel)
    ensures NewLogID(s, channel, 0).lastChatIDs == s.lastChatIDs[channel := 0]
  {
  }

  // ----- The class -----

  class User {
    var lastChatIDs: ChatIDs
    var waitingEvents: seq<Id>
    var isSet: map<Id, bool>

    function View(): State
      reads this
    {
      State(lastChatIDs, waitingEvents, isSet)
    }

    constructor (ids: ChatIDs)
      ensures View() == State(ids, [], map[]) && Valid(View())
    {
      lastChatIDs, waitingEvents, isSet := ids, [], map[];
    }

    /** Sets the flag of every waiting thread. */
    method WakeAll()
      requires Valid(View())
      modifies this`isSet
      ensures View() == Wake(old(View())) && Valid(View())
    {
      ghost var s := View();
      var i := 0;
      while i < |waitingEvents|
        invariant 0 <= i <= |waitingEvents| && isSet.Keys == s.isSet.Keys
        invariant forall t :: t in isSet ==> isSet[t] == (s.isSet[t] || t in waitingEvents[..i])
      {
        var ev := waitingEvents[i];
        assert ev in s.waiting;
        isSet := isSet[ev := true];
        assert waitingEvents[..i + 1] == waitingEvents[..i] + [ev];
        i := i + 1;
      }
      assert waitingEvents[..i] == waitingEvents;
      ghost var woken := Wake(s).isSet;
      assert isSet.Keys == woken.Keys;
      assert forall t :: t in isSet ==> isSet[t] == woken[t];
    }

    method NewLogIDArrived(channel: Channel, newLogID: int)
      requires Valid(View())
      modifies this
      ensures View() == NewLogID(old(View()), channel, newLogID) && Valid(View())
    {
      lastChatIDs := lastChatIDs[channel := newLogID];
      WakeAll();
    }

    method CloseChannel(channel: Channel)
      requires Valid(View())
      modifies this
      ensures View() == ChannelClosed(old(View()), channel) && Valid(View())
    {
      if channel in lastChatIDs && lastChatIDs[channel] != 0 {
        lastChatIDs := lastChatIDs - {channel};
        WakeAll();
      }
    }

    /** The section of waitForChange before the wait. */
    method BeginWait(t: Id, requested: ChatIDs) returns (entry: Entry)
      requires Valid(View()) && t !in isSet
      modifies this
      ensures entry == EntryOf(old(View()), requested) && View() == Enter(old(View()), t, requested) && Valid(View())
      ensures entry == if requested == old(lastChatIDs) then Waits else Answered(old(lastChatIDs))
      ensures t in waitingEvents <==> entry == Waits
    {
      StepKeeps(View(), EnterStep(t, requested));
      if requested != lastChatIDs { return Answered(lastChatIDs); }
      isSet := isSet[t := false];
      waitingEvents := waitingEvents + [t];
      entry := Waits;
    }

    /** The section after it, however the wait ended. */
    method EndWait(t: Id) returns (reply: Option<ChatIDs>)
      requires Valid(View()) && t in waitingEvents
      modifies this
      ensures t in old(isSet) && reply == Reply(old(View()), t)
      ensures View() == Leave(old(View()), t) && Valid(View())
    {
      StepKeeps(View(), LeaveStep(t));
      waitingEvents := Without(waitingEvents, t);
      reply := if isSet[t] then Some(lastChatIDs) else None;
      isSet := isSet - {t};
    }
  }
}
