/** The commands of transactions, over lists and dictionaries that they update in place. */
module Transactions {
  import opened Bytes
  import opened Sequences
  import opened TransactionsSpec

  /** listSearchKey: the position of the first element equal to x, or the length. */
  method SearchKey<T(==)>(s: seq<T>, x: T) returns (i: nat)
    ensures i <= |s| && (forall k :: 0 <= k < i ==> s[k] != x) && (i < |s| ==> s[i] == x)
  {
    i := 0;
    while i < |s| && s[i] != x
      invariant i <= |s| && forall k :: 0 <= k < i ==> s[k] != x
    {
      i := i + 1;
    }
  }

  class Server {
    var clients: map<Id, Client>
    var watchers: map<Location, seq<Id>>

    function View(): State
      reads this
    {
      State(clients, watchers)
    }

    constructor ()
      ensures View() == State(map[], map[]) && Consistent(View())
    {
      clients, watchers := map[], map[];
    }

    method WatchForKey(c: Id, key: seq<byte>)
      requires c in clients
      modifies this
      ensures View() == WatchKey(old(View()), c, key)
    {
      var client := clients[c];
      var wk := (client.db, key);
      var i := SearchKey(client.watched, wk);
      if i < |client.watched| { return; }
      if wk !in watchers {
        watchers := watchers[wk := []];
      }
      watchers := watchers[wk := watchers[wk] + [c]];
      clients := clients[c := client.(watched := client.watched + [wk])];
    }

    /** Goes through the watched keys of a client, taking it off the list of each. */
    method UnwatchAllKeys(c: Id)
      requires c in clients && Consistent(View())
      modifies this
      ensures View() == UnwatchAll(old(View()), c) && Consistent(View())
    {
      hide Without, Distinct, Consistent, PartlyUnwatched, UnwatchAll;
      ghost var s := View();
      ghost var all := clients[c].watched;
      var i := 0;
      assert all[0..] == all;
      NotYetUnwatched(s, c);
      while clients[c].watched != []
        invariant 0 <= i <= |all| && c in clients && clients == s.clients[c := s.clients[c].(watched := all[i..])]
        invariant PartlyUnwatched(s, c, all[..i], watchers)
        decreases |all| - i
      {
        var p := clients[c].watched[0];
        StillWatched(s, c, i, watchers);
        PartlyNext(s, c, i, watchers);
        RemoveWatcher(c, p);
        clients := clients[c := clients[c].(watched := clients[c].watched[1..])];
        assert all[i..][1..] == all[i + 1..];
        i := i + 1;
      }
      assert all[..i] == all && all[i..] == [];
      AllUnwatched(s, c, watchers);
      UnwatchClients(s, c);
      UnwatchKeeps(s, c);
    }

    /** Takes a client off the list of one key, and the list away if it becomes empty. */
    method RemoveWatcher(c: Id, p: Location)
      requires p in watchers && c in watchers[p] && Distinct(watchers[p])
      modifies this`watchers
      ensures watchers == Unlisted(old(watchers), p, c)
    {
      hide Without, Distinct;
      var list := watchers[p];
      var i := SearchKey(list, c);
      WithoutAt(list, i);
      list := Removed(list, i);
      watchers := if |list| == 0 then watchers - {p} else watchers[p := list];
    }

    method TouchWatchedKey(p: Location)
      requires Consistent(View())
      modifies this`clients
      ensures View() == Mark(old(View()), Watching(old(View()), p)) && Consistent(View())
    {
      ghost var s := View();
      assert forall c :: c in Watching(s, p) <==> p in s.watchers && c in s.watchers[p];
      if p in watchers {
        var list := watchers[p];
        var i := 0;
        while i < |list|
          invariant 0 <= i <= |list| && clients.Keys == s.clients.Keys
          invariant forall c :: c in clients ==>
            clients[c] == if c in list[..i] then s.clients[c].(dirty := true) else s.clients[c]
        {
          var c := list[i];
          assert c in s.clients;
          clients := clients[c := clients[c].(dirty := true)];
          assert list[..i + 1] == list[..i] + [c];
          i := i + 1;
        }
        assert list[..i] == list;
      }
      MarkIs(s, Watching(s, p), clients);
      SameListsKeep(s, View());
    }

    /** Whether one of a client's watched keys exists in the database that is flushed. */
    static method LosesKey(watched: seq<Location>, dbid: int, existing: set<Location>) returns (r: bool)
      ensures r == Loses(watched, dbid, existing)
    {
      r := false;
      var i := 0;
      while i < |watched|
        invariant 0 <= i <= |watched| && r == Loses(watched[..i], dbid, existing)
      {
        assert watched[..i + 1] == watched[..i] + [watched[i]];
        assert watched[..i + 1][i] == watched[i];
        assert forall k :: 0 <= k < i ==> watched[..i + 1][k] == watched[..i][k];
        if dbid == -1 || watched[i].0 == dbid {
          if watched[i] in existing {
            r := true;
          }
        }
        i := i + 1;
      }
      assert watched[..i] == watched;
    }

    method TouchWatchedKeysOnFlush(dbid: int, existing: set<Location>)
      requires Consistent(View())
      modifies this`clients
      ensures View() == Mark(old(View()), Losing(old(View()), dbid, existing)) && Consistent(View())
    {
      hide Loses;
      ghost var s := View();
      var todo := clients.Keys;
      while todo != {}
        invariant todo <= clients.Keys == s.clients.Keys
        invariant forall c :: c in clients ==>
          clients[c] == if c !in todo && Loses(s.clients[c].watched, dbid, existing)
                        then s.clients[c].(dirty := true) else s.clients[c]
        decreases |todo|
      {
        SomeMember(todo);
        var c :| c in todo;
        var loses := LosesKey(clients[c].watched, dbid, existing);
        if loses {
          clients := clients[c := clients[c].(dirty := true)];
        }
        todo := todo - {c};
      }
      MarkIs(s, Losing(s, dbid, existing), clients);
      SameListsKeep(s, View());
    }

    method Perform(c: Id, es: seq<Effect>)
      requires c in clients && Consistent(View())
      modifies this`clients
      ensures View() == ApplyEffects(old(View()), c, es) && Consistent(View())
    {
      hide Consistent, Watching, Losing;
      ghost var s := View();
      var i := 0;
      assert es[0..] == es;
      while i < |es|
        invariant 0 <= i <= |es| && c in clients && Consistent(View())
        invariant ApplyEffects(View(), c, es[i..]) == ApplyEffects(s, c, es)
      {
        ghost var t := View();
        assert es[i..][0] == es[i] && es[i..][1..] == es[i + 1..];
        match es[i] {
          case Touched(p) => TouchWatchedKey(p);
          case Flushed(dbid, existing) => TouchWatchedKeysOnFlush(dbid, existing);
          case Selected(db) =>
            clients := clients[c := clients[c].(db := db)];
            SameListsKeep(t, View());
        }
        i := i + 1;
      }
    }

    method MultiCommand(c: Id) returns (reply: Reply)
      requires c in clients && Consistent(View())
      modifies this
      ensures Outcome(View(), reply) == Multi(old(View()), c) && Consistent(View())
    {
      hide Consistent;
      ghost var s := View();
      if clients[c].multi { return Refused; }
      clients := clients[c := clients[c].(multi := true)];
      SameListsKeep(s, View());
      reply := Done;
    }

    method DiscardCommand(c: Id) returns (reply: Reply)
      requires c in clients && Consistent(View())
      modifies this
      ensures Outcome(View(), reply) == Discard(old(View()), c) && Consistent(View())
    {
      hide Consistent, UnwatchAll;
      ghost var s := View();
      if !clients[c].multi { return Refused; }
      clients := clients[c := clients[c].(queue := [])];
      clients := clients[c := clients[c].(multi := false)];
      assert View() == With(s, c, s.clients[c].(multi := false, queue := []));
      SameListsKeep(s, View());
      UnwatchAllKeys(c);
      reply := Done;
    }

    method WatchCommand(c: Id, keys: seq<seq<byte>>) returns (reply: Reply)
      requires c in clients && Consistent(View())
      modifies this
      ensures Outcome(View(), reply) == Watch(old(View()), c, keys) && Consistent(View())
    {
      hide Consistent, WatchKey;
      ghost var s := View();
      if clients[c].multi { return Refused; }
      var j := 0;
      assert keys[0..] == keys;
      while j < |keys|
        invariant 0 <= j <= |keys| && c in clients
        invariant WatchKeys(View(), c, keys[j..]) == WatchKeys(s, c, keys)
      {
        assert keys[j..][0] == keys[j] && keys[j..][1..] == keys[j + 1..];
        ghost var t := View();
        WatchedStays(t, c, keys[j]);
        WatchForKey(c, keys[j]);
        j := j + 1;
      }
      WatchKeysKeep(s, c, keys);
      reply := Done;
    }

    method UnwatchCommand(c: Id) returns (reply: Reply)
      requires c in clients && Consistent(View())
      modifies this
      ensures View() == Unwatch(old(View()), c) && reply == Done && Consistent(View())
    {
      hide Consistent, UnwatchAll;
      UnwatchClients(View(), c);
      UnwatchAllKeys(c);
      ghost var t := View();
      clients := clients[c := clients[c].(dirty := false)];
      SameListsKeep(t, View());
      reply := Done;
    }

    /** EXEC; `es` is what the queued commands do if they are executed. */
    method ExecCommand(c: Id, es: seq<Effect>) returns (reply: Reply)
      requires c in clients && Consistent(View())
      modifies this
      ensures Outcome(View(), reply) == Exec(old(View()), c, es) && Consistent(View())
    {
      hide Consistent, UnwatchAll, ApplyEffects;
      ghost var s := View();
      if !clients[c].multi { return Refused; }
      if clients[c].dirty {
        clients := clients[c := clients[c].(queue := [])];
        clients := clients[c := clients[c].(multi := false, dirty := false)];
        assert View() == With(s, c, s.clients[c].(multi := false, dirty := false, queue := []));
        SameListsKeep(s, View());
        UnwatchAllKeys(c);
        return Aborted;
      }
      reply := Executed(clients[c].queue);
      UnwatchClients(s, c);
      UnwatchAllKeys(c);
      Perform(c, es);
      ghost var t := View();
      clients := clients[c := clients[c].(queue := [])];
      clients := clients[c := clients[c].(multi := false, dirty := false)];
      assert View() == With(t, c, t.clients[c].(multi := false, dirty := false, queue := []));
      SameListsKeep(t, View());
    }

    /** One request of a client, queued or executed. */
    method ProcessCommand(c: Id, r: Request) returns (reply: Reply)
      requires c in clients && Consistent(View())
      modifies this
      ensures Outcome(View(), reply) == Handle(old(View()), c, r) && Consistent(View())
    {
      hide Consistent, Multi, Discard, Watch, Unwatch, Exec, ApplyEffects;
      ghost var s := View();
      if clients[c].multi && (r.UnwatchRequest? || r.OtherRequest?) {
        var cmd := if r.UnwatchRequest? then UNWATCH else r.cmd;
        clients := clients[c := clients[c].(queue := clients[c].queue + [cmd])];
        assert View() == Enqueue(s, c, cmd);
        SameListsKeep(s, View());
        return Queued;
      }
      match r
      case WatchRequest(keys) => reply := WatchCommand(c, keys);
      case UnwatchRequest => reply := UnwatchCommand(c);
      case MultiRequest => reply := MultiCommand(c);
      case DiscardRequest => reply := DiscardCommand(c);
      case ExecRequest(es) => reply := ExecCommand(c, es);
      case OtherRequest(cmd, es) =>
        Perform(c, es);
        reply := Done;
      case BadRequest => reply := Refused;
    }
  }

  function Unlisted(w: map<Location, seq<Id>>, p: Location, c: Id): map<Location, seq<Id>>
    requires p in w
  {
    var left := Without(w[p], c);
    if left == [] then w - {p} else w[p := left]
  }

  /** The index while the client has left the lists of the keys in `left` only. */
  ghost predicate PartlyUnwatched(s: State, c: Id, left: seq<Location>, w: map<Location, seq<Id>>) {
    && (forall p :: p in w <==> p in s.watchers && (p in left ==> Without(s.watchers[p], c) != []))
    && (forall p :: p in w ==> w[p] == if p in left then Without(s.watchers[p], c) else s.watchers[p])
  }

  lemma NotYetUnwatched(s: State, c: Id)
    requires c in s.clients
    ensures PartlyUnwatched(s, c, s.clients[c].watched[..0], s.watchers)
  {
  }

  lemma StillWatched(s: State, c: Id, i: nat, w: map<Location, seq<Id>>)
    requires Consistent(s) && c in s.clients && i < |s.clients[c].watched|
    requires PartlyUnwatched(s, c, s.clients[c].watched[..i], w)
    ensures var p := s.clients[c].watched[i];
      p in s.watchers && p !in s.clients[c].watched[..i] && p in w && w[p] == s.watchers[p]
      && c in w[p] && Distinct(w[p])
  {
    hide Without;
    AtIsNotBefore(s.clients[c].watched, i);
  }

  lemma PartlyNext(s: State, c: Id, i: nat, w: map<Location, seq<Id>>)
    requires Consistent(s) && c in s.clients && i < |s.clients[c].watched|
    requires PartlyUnwatched(s, c, s.clients[c].watched[..i], w)
    ensures s.clients[c].watched[i] in w
    ensures PartlyUnwatched(s, c, s.clients[c].watched[..i + 1], Unlisted(w, s.clients[c].watched[i], c))
  {
    hide Without, Consistent, Distinct;
    StillWatched(s, c, i, w);
    var all := s.clients[c].watched;
    assert all[..i + 1] == all[..i] + [all[i]];
  }

  lemma AllUnwatched(s: State, c: Id, w: map<Location, seq<Id>>)
    requires Consistent(s) && c in s.clients && PartlyUnwatched(s, c, s.clients[c].watched, w)
    ensures w == UnwatchAll(s, c).watchers
  {
    hide Without, Distinct;
    forall p | p in s.watchers && p !in s.clients[c].watched ensures Without(s.watchers[p], c) == s.watchers[p] {
      WithoutAbsent(s.watchers[p], c);
    }
  }

  lemma MarkIs(s: State, hit: set<Id>, clients: map<Id, Client>)
    requires clients.Keys == s.clients.Keys
    requires forall c :: c in clients ==>
      clients[c] == if c in hit then s.clients[c].(dirty := true) else s.clients[c]
    ensures clients == Mark(s, hit).clients
  {
    var m := Mark(s, hit).clients;
    assert m.Keys == clients.Keys;
    assert forall c :: c in clients ==> m[c] == clients[c];
  }

  lemma SomeMember(s: set<Id>)
    requires s != {}
    ensures exists c :: c in s
  {
    if forall c :: c !in s {
      assert false;
    }
  }

  lemma WatchedStays(s: State, c: Id, key: seq<byte>)
    requires c in s.clients
    ensures c in WatchKey(s, c, key).clients
  {
  }

  lemma AtIsNotBefore<T>(s: seq<T>, i: nat)
    requires Distinct(s) && i < |s|
    ensures s[i] !in s[..i]
  {
  }
}
