/** What an append-only file means: the dataset that executing its commands builds. */
module AofReplay {
  import opened Bytes
  import opened Resp
  import opened AofLoad
  import Decimal
  import RdbFormat

  type Key = seq<byte>
  type Value = RdbFormat.Value

  /** All databases of a server: each key with the number of its database. */
  type Dataset = map<(int, Key), Value>

  const SELECT: seq<byte> := [83, 69, 76, 69, 67, 84]
  const SET: seq<byte> := [83, 69, 84]
  const RPUSH: seq<byte> := [82, 80, 85, 83, 72]
  const SADD: seq<byte> := [83, 65, 68, 68]
  const HSET: seq<byte> := [72, 83, 69, 84]

  /**
    * The number of databases, what every command does to the dataset when a given database is selected, and the command
    * table.
    */
  datatype World = World(dbnum: int, exec: (int, Dataset, Command) -> Dataset, known: Table)

  /** The commands that a rewritten file consists of mean what they should; nothing is said about any other. */
  ghost predicate Lawful(w: World) {
    && 0 < w.dbnum <= INT_MAX
    && w.known(SELECT) && w.known(SET) && w.known(RPUSH) && w.known(SADD) && w.known(HSET)
    && (forall d: int, m: Dataset, k: Key, v: seq<byte> ::
          w.exec(d, m, [SET, k, v]) == m[(d, k) := RdbFormat.StringValue(v)])
    && (forall d: int, m: Dataset, k: Key, v: seq<byte> :: (d, k) !in m ==>
          w.exec(d, m, [RPUSH, k, v]) == m[(d, k) := RdbFormat.ListValue([v])])
    && (forall d: int, m: Dataset, k: Key, v: seq<byte> :: (d, k) in m && m[(d, k)].ListValue? ==>
          w.exec(d, m, [RPUSH, k, v]) == m[(d, k) := RdbFormat.ListValue(m[(d, k)].texts + [v])])
    && (forall d: int, m: Dataset, k: Key, v: seq<byte> :: (d, k) !in m ==>
          w.exec(d, m, [SADD, k, v]) == m[(d, k) := RdbFormat.SetValue({v})])
    && (forall d: int, m: Dataset, k: Key, v: seq<byte> :: (d, k) in m && m[(d, k)].SetValue? ==>
          w.exec(d, m, [SADD, k, v]) == m[(d, k) := RdbFormat.SetValue(m[(d, k)].members + {v})])
    && (forall d: int, m: Dataset, k: Key, f: seq<byte>, v: seq<byte> :: (d, k) !in m ==>
          w.exec(d, m, [HSET, k, f, v]) == m[(d, k) := RdbFormat.HashValue(map[f := v])])
    && (forall d: int, m: Dataset, k: Key, f: seq<byte>, v: seq<byte> :: (d, k) in m && m[(d, k)].HashValue? ==>
          w.exec(d, m, [HSET, k, f, v]) == m[(d, k) := RdbFormat.HashValue(m[(d, k)].fields[f := v])])
  }

  /** The client that executes a log: its selected database and the dataset. */
  datatype Conn = Conn(sel: int, data: Dataset)

  const START: Conn := Conn(0, map[])

  /** SELECT, in any case of letters, up to a NUL in the name. */
  predicate IsSelect(cmd: Command) {
    |cmd| >= 2 && SameWord(cmd[0], [115, 101, 108, 101, 99, 116])
  }

  function Apply(w: World, c: Conn, cmd: Command): Conn {
    if IsSelect(cmd) then
      var id := ToInt32(Decimal.Strtol(cmd[1]).value);
      if 0 <= id < w.dbnum then c.(sel := id) else c
    else c.(data := w.exec(c.sel, c.data, cmd))
  }

  function Replay(w: World, c: Conn, cmds: seq<Command>): Conn
    decreases |cmds|
  {
    if cmds == [] then c else Replay(w, Apply(w, c, cmds[0]), cmds[1..])
  }

  lemma {:induction false} ReplayAppend(w: World, c: Conn, a: seq<Command>, b: seq<Command>)
    ensures Replay(w, c, a + b) == Replay(w, Replay(w, c, a), b)
    decreases |a|
  {
    hide Apply;
    if a == [] {
      assert a + b == b;
    } else {
      assert (a + b)[1..] == a[1..] + b;
      ReplayAppend(w, Apply(w, c, a[0]), a[1..], b);
    }
  }

  function Selecting(db: int): Command {
    [SELECT, Decimal.Print(db)]
  }

  lemma SelectApplies(w: World, c: Conn, db: int)
    requires 0 <= db < w.dbnum <= INT_MAX
    ensures Apply(w, c, Selecting(db)) == c.(sel := db)
  {
    hide Decimal.Print, Decimal.Strtol, SameWord;
    Decimal.PrintRoundTrip(db, []);
    assert Decimal.Print(db) + [] == Decimal.Print(db);
    assert ToInt32(db) == db;
    SelectWord();
  }

  lemma SelectWord()
    ensures SameWord(SELECT, [115, 101, 108, 101, 99, 116])
  {
    assert SameWord([84], [116]);
    assert [67, 84][1..] == [84] && [99, 116][1..] == [116];
    assert SameWord([67, 84], [99, 116]);
    assert [69, 67, 84][1..] == [67, 84] && [101, 99, 116][1..] == [99, 116];
    assert SameWord([69, 67, 84], [101, 99, 116]);
    assert [76, 69, 67, 84][1..] == [69, 67, 84] && [108, 101, 99, 116][1..] == [101, 99, 116];
    assert SameWord([76, 69, 67, 84], [108, 101, 99, 116]);
    assert [69, 76, 69, 67, 84][1..] == [76, 69, 67, 84] && [101, 108, 101, 99, 116][1..] == [108, 101, 99, 116];
    assert SameWord([69, 76, 69, 67, 84], [101, 108, 101, 99, 116]);
    assert SELECT[1..] == [69, 76, 69, 67, 84];
    assert [115, 101, 108, 101, 99, 116][1..] == [101, 108, 101, 99, 116];
  }

  // ----- Appending whole commands to a log -----

  lemma {:induction false} LineEndStays(s: seq<byte>, t: seq<byte>, room: nat)
    requires LineEnd(s, room) < |s|
    ensures LineEnd(s + t, room) == LineEnd(s, room)
    decreases room
  {
    if s != [] && room > 0 && s[0] != 10 {
      assert (s + t)[1..] == s[1..] + t;
      LineEndStays(s[1..], t, room - 1);
    }
  }

  lemma LoadArgAppend(s: seq<byte>, t: seq<byte>)
    requires LoadArg(s).Args?
    ensures LoadArg(s + t) == Args(LoadArg(s).argv, LoadArg(s).rest + t)
  {
    hide LineEnd, Decimal.Strtol;
    LineEndStays(s, t, 127);
    var line := Line(s);
    assert Line(s + t) == line;
    var body := s[|line|..];
    var len := Decimal.Strtol(line[1..]).value;
    assert (s + t)[|line|..] == body + t;
    assert (body + t)[..len] == body[..len] && (body + t)[len + 2..] == body[len + 2..] + t;
  }

  lemma {:induction false} LoadArgsAppend(s: seq<byte>, argc: nat, t: seq<byte>)
    requires LoadArgs(s, argc).Args?
    ensures LoadArgs(s + t, argc) == Args(LoadArgs(s, argc).argv, LoadArgs(s, argc).rest + t)
    decreases argc
  {
    hide LoadArg;
    if argc > 0 {
      LoadArgAppend(s, t);
      LoadArgsAppend(LoadArg(s).rest, argc - 1, t);
    }
  }

  lemma NoArgsLeft(argc: nat)
    requires argc > 0
    ensures LoadArgs([], argc).Failed?
  {
  }

  lemma LoadCommandAppend(s: seq<byte>, t: seq<byte>)
    requires s != [] && LoadCommand(s).Args?
    ensures LoadCommand(s + t) == Args(LoadCommand(s).argv, LoadCommand(s).rest + t)
  {
    hide LineEnd, Decimal.Strtol, LoadArgs;
    var line := Line(s);
    var argc := ToInt32(Decimal.Strtol(line[1..]).value);
    if |line| == |s| {
      assert s[|line|..] == [];
      NoArgsLeft(argc);
      assert false;
    }
    LineEndStays(s, t, 127);
    assert Line(s + t) == line;
    assert (s + t)[|line|..] == s[|line|..] + t;
    LoadArgsAppend(s[|line|..], argc, t);
  }

  /** What follows a log of whole commands is read after it. */
  lemma {:induction false} ReadAllAppend(known: Table, s: seq<byte>, t: seq<byte>)
    requires ReadAll(known, s).outcome == Complete
    ensures ReadAll(known, s + t) == Loaded(ReadAll(known, s).cmds + ReadAll(known, t).cmds, ReadAll(known, t).outcome)
    decreases |s|
  {
    hide LoadCommand;
    if s == [] {
      assert s + t == t;
    } else {
      LoadCommandAppend(s, t);
      ReadAllAppend(known, LoadCommand(s).rest, t);
    }
  }

  /** On a cut log a command is read as the one that was written, or not at all. */
  lemma CutCommand(cmd: Command, tail: seq<byte>, m: nat)
    requires Loadable(cmd) && 0 < m <= |Encode(cmd) + tail|
    ensures var r := LoadCommand((Encode(cmd) + tail)[..m]); var n := |Encode(cmd)|;
      r.Args? ==> n <= m && r == Args(cmd, tail[..m - n])
  {
    hide LoadCommand, Encode, Loadable;
    var all := Encode(cmd) + tail;
    var s := all[..m];
    LoadEncoded(cmd, tail);
    if LoadCommand(s).Args? {
      var rest := LoadCommand(s).rest;
      LoadCommandAppend(s, all[m..]);
      assert s + all[m..] == all;
      assert rest + all[m..] == tail;
      assert rest == tail[..|rest|];
    }
  }

  lemma {:induction false} TruncatedReadsFront(known: Table, cmds: seq<Command>, m: nat) returns (k: nat)
    requires (forall i :: 0 <= i < |cmds| ==> Accepted(known, cmds[i])) && m <= |EncodeAll(cmds)|
    ensures k <= |cmds| && ReadAll(known, EncodeAll(cmds)[..m]).cmds == cmds[..k]
    ensures ReadAll(known, EncodeAll(cmds)[..m]).outcome == Complete <==> m == |EncodeAll(cmds[..k])|
    decreases |cmds|
  {
    hide LoadCommand, Encode, Loadable;
    k := 0;
    var s := EncodeAll(cmds)[..m];
    if m > 0 {
      var tail := EncodeAll(cmds[1..]);
      assert Accepted(known, cmds[0]);
      CutCommand(cmds[0], tail, m);
      if LoadCommand(s).Args? {
        var j := TruncatedReadsFront(known, cmds[1..], m - |Encode(cmds[0])|);
        k := j + 1;
        FrontNext(cmds, j);
      }
    }
  }

  /**
    * A written log that was cut anywhere executes only a front part of its commands, and loads exactly if it was cut
    * between two of them and outside of a MULTI.
    */
  lemma TruncatedLoadsFront(known: Table, cmds: seq<Command>, m: nat) returns (k: nat)
    requires (forall i :: 0 <= i < |cmds| ==> Accepted(known, cmds[i])) && m <= |EncodeAll(cmds)|
    ensures k <= |cmds| && Load(known, EncodeAll(cmds)[..m]).cmds == cmds[..k]
    ensures Load(known, EncodeAll(cmds)[..m]).outcome == Complete <==>
      m == |EncodeAll(cmds[..k])| && !OpenAfter(cmds[..k], false)
  {
    hide ReadAll, OpenAfter, EncodeAll, Accepted;
    k := TruncatedReadsFront(known, cmds, m);
  }

  lemma FrontNext(cmds: seq<Command>, j: nat)
    requires cmds != [] && j < |cmds|
    ensures cmds[..j + 1] == [cmds[0]] + cmds[1..][..j]
    ensures EncodeAll(cmds[..j + 1]) == Encode(cmds[0]) + EncodeAll(cmds[1..][..j])
  {
    hide Encode;
    assert cmds[..j + 1][1..] == cmds[1..][..j];
  }

  // ----- Rewriting a dataset as a log -----

  /** A key and its object, in the order in which the dictionary of a database is iterated. */
  type Entries = seq<(Key, RdbFormat.Object)>

  function ItemCommands(name: seq<byte>, key: Key, items: seq<RdbFormat.Str>): (cmds: seq<Command>)
    ensures |cmds| == |items|
  {
    seq(|items|, i requires 0 <= i < |items| => [name, key, RdbFormat.TextOf(items[i])])
  }

  function FieldCommands(key: Key, fields: seq<(RdbFormat.Str, RdbFormat.Str)>): (cmds: seq<Command>)
    ensures |cmds| == |fields|
  {
    seq(|fields|, i requires 0 <= i < |fields| =>
      [HSET, key, RdbFormat.TextOf(fields[i].0), RdbFormat.TextOf(fields[i].1)])
  }

  function EntryCommands(key: Key, o: RdbFormat.Object): seq<Command> {
    match o
    case StringObject(x) => [[SET, key, RdbFormat.TextOf(x)]]
    case ListObject(items) => ItemCommands(RPUSH, key, items)
    case SetObject(members) => ItemCommands(SADD, key, members)
    case HashObject(fields) => FieldCommands(key, fields)
  }

  function AllEntryCommands(es: Entries): seq<Command> {
    if es == [] then [] else AllEntryCommands(es[..|es| - 1]) + EntryCommands(es[|es| - 1].0, es[|es| - 1].1)
  }

  /** A rewritten file: every database that has keys is selected and filled. */
  function RewriteCommands(dbs: seq<Entries>): seq<Command> {
    if dbs == [] then []
    else
      var j := |dbs| - 1;
      RewriteCommands(dbs[..j]) + if dbs[j] == [] then [] else [Selecting(j)] + AllEntryCommands(dbs[j])
  }

  /** The server deletes a key whose list, set or hash becomes empty. */
  predicate NonEmpty(o: RdbFormat.Object) {
    match o
    case StringObject(_) => true
    case ListObject(items) => items != []
    case SetObject(members) => members != []
    case HashObject(fields) => fields != []
  }

  predicate ValidEntries(es: Entries) {
    && (forall i :: 0 <= i < |es| ==> NonEmpty(es[i].1))
    && (forall i, k :: 0 <= i < k < |es| ==> es[i].0 != es[k].0)
  }

  predicate ValidDbs(w: World, dbs: seq<Entries>) {
    |dbs| <= w.dbnum && forall j :: 0 <= j < |dbs| ==> ValidEntries(dbs[j])
  }

  function WithEntries(data: Dataset, db: int, es: Entries): Dataset {
    if es == [] then data
    else
      var last := es[|es| - 1];
      WithEntries(data, db, es[..|es| - 1])[(db, last.0) := RdbFormat.ValueOf(last.1)]
  }

  /** The dataset that the databases hold. */
  function DataOf(dbs: seq<Entries>): Dataset {
    if dbs == [] then map[]
    else WithEntries(DataOf(dbs[..|dbs| - 1]), |dbs| - 1, dbs[|dbs| - 1])
  }

  lemma {:induction false} WithEntriesAt(data: Dataset, db: int, es: Entries, p: (int, Key))
    requires ValidEntries(es)
    ensures p in WithEntries(data, db, es) <==> p in data || (p.0 == db && exists i :: 0 <= i < |es| && es[i].0 == p.1)
    ensures p.0 != db && p in data ==> WithEntries(data, db, es)[p] == data[p]
    ensures forall i :: 0 <= i < |es| && p == (db, es[i].0) ==>
      WithEntries(data, db, es)[p] == RdbFormat.ValueOf(es[i].1)
    decreases |es|
  {
    hide RdbFormat.ValueOf;
    if es != [] {
      var front := es[..|es| - 1];
      WithEntriesAt(data, db, front, p);
      assert forall i :: 0 <= i < |front| ==> front[i] == es[i];
      assert es[|es| - 1].0 == p.1 ==> exists i :: 0 <= i < |es| && es[i].0 == p.1;
    }
  }

  /** The dataset has exactly the keys of the databases, each in its own and with the value of its object. */
  lemma {:induction false} DataOfAt(dbs: seq<Entries>, p: (int, Key))
    requires forall j :: 0 <= j < |dbs| ==> ValidEntries(dbs[j])
    ensures p in DataOf(dbs) <==>
      0 <= p.0 < |dbs| && exists i :: 0 <= i < |dbs[p.0]| && dbs[p.0][i].0 == p.1
    ensures 0 <= p.0 < |dbs| ==> forall i :: 0 <= i < |dbs[p.0]| && dbs[p.0][i].0 == p.1 ==>
      DataOf(dbs)[p] == RdbFormat.ValueOf(dbs[p.0][i].1)
    decreases |dbs|
  {
    hide WithEntries, ValidEntries, RdbFormat.ValueOf;
    if dbs != [] {
      var n := |dbs| - 1;
      DataOfAt(dbs[..n], p);
      assert ValidEntries(dbs[n]);
      WithEntriesAt(DataOf(dbs[..n]), n, dbs[n], p);
    }
  }

  lemma NamesAreNotSelect()
    ensures forall k: Key, v: seq<byte> :: !IsSelect([SET, k, v]) && !IsSelect([RPUSH, k, v]) && !IsSelect([SADD, k, v])
    ensures forall k: Key, f: seq<byte>, v: seq<byte> :: !IsSelect([HSET, k, f, v])
  {
    var word: seq<byte> := [115, 101, 108, 101, 99, 116];
    assert SET[1..] == [69, 84] && word[1..] == [101, 108, 101, 99, 116];
    assert [69, 84][1..] == [84] && [101, 108, 101, 99, 116][1..] == [108, 101, 99, 116];
    assert SADD[1..] == [65, 68, 68];
    assert !SameWord(SET, word) by {
      assert !SameWord([84], [108, 101, 99, 116]);
      assert !SameWord([69, 84], [101, 108, 101, 99, 116]);
    }
    assert !SameWord(SADD, word) by {
      assert !SameWord([65, 68, 68], [101, 108, 101, 99, 116]);
    }
    assert !SameWord(RPUSH, word) && !SameWord(HSET, word);
  }

  lemma SetApplies(w: World, c: Conn, k: Key, v: seq<byte>)
    requires Lawful(w)
    ensures Apply(w, c, [SET, k, v]) == c.(data := c.data[(c.sel, k) := RdbFormat.StringValue(v)])
  {
    hide IsSelect;
    NamesAreNotSelect();
  }

  lemma RpushApplies(w: World, c: Conn, k: Key, v: seq<byte>)
    requires Lawful(w) && ((c.sel, k) in c.data ==> c.data[(c.sel, k)].ListValue?)
    ensures var texts := if (c.sel, k) in c.data then c.data[(c.sel, k)].texts else [];
      Apply(w, c, [RPUSH, k, v]) == c.(data := c.data[(c.sel, k) := RdbFormat.ListValue(texts + [v])])
  {
    hide IsSelect;
    NamesAreNotSelect();
    assert [] + [v] == [v];
  }

  lemma SaddApplies(w: World, c: Conn, k: Key, v: seq<byte>)
    requires Lawful(w) && ((c.sel, k) in c.data ==> c.data[(c.sel, k)].SetValue?)
    ensures var members := if (c.sel, k) in c.data then c.data[(c.sel, k)].members else {};
      Apply(w, c, [SADD, k, v]) == c.(data := c.data[(c.sel, k) := RdbFormat.SetValue(members + {v})])
  {
    hide IsSelect;
    NamesAreNotSelect();
    assert {} + {v} == {v};
  }

  lemma HsetApplies(w: World, c: Conn, k: Key, f: seq<byte>, v: seq<byte>)
    requires Lawful(w) && ((c.sel, k) in c.data ==> c.data[(c.sel, k)].HashValue?)
    ensures var fields := if (c.sel, k) in c.data then c.data[(c.sel, k)].fields else map[];
      Apply(w, c, [HSET, k, f, v]) == c.(data := c.data[(c.sel, k) := RdbFormat.HashValue(fields[f := v])])
  {
    hide IsSelect;
    NamesAreNotSelect();
    assert map[][f := v] == map[f := v];
  }

  /** Setting a key twice is setting it once. */
  lemma SetTwice(data: Dataset, p: (int, Key), v: Value, u: Value)
    ensures data[p := v][p := u] == data[p := u] && p in data[p := v] && data[p := v][p] == v
  {
  }

  lemma {:induction false} ListRebuilt(w: World, c: Conn, key: Key, items: seq<RdbFormat.Str>, n: nat)
    requires Lawful(w) && (c.sel, key) !in c.data && 0 < n <= |items|
    ensures Replay(w, c, ItemCommands(RPUSH, key, items[..n])) ==
      c.(data := c.data[(c.sel, key) := RdbFormat.ListValue(RdbFormat.Texts(items[..n]))])
    decreases n
  {
    hide RdbFormat.TextOf, Lawful, Apply, Replay, ItemCommands;
    var text := RdbFormat.TextOf(items[n - 1]);
    LastItem(w, c, RPUSH, key, items, n);
    var before := RdbFormat.Texts(items[..n - 1]);
    assert RdbFormat.Texts(items[..n]) == before + [text];
    if n > 1 {
      ListRebuilt(w, c, key, items, n - 1);
      SetTwice(c.data, (c.sel, key), RdbFormat.ListValue(before), RdbFormat.ListValue(before + [text]));
    } else {
      NoItems(w, c, RPUSH, key, items);
      assert before == [];
    }
    RpushApplies(w, Replay(w, c, ItemCommands(RPUSH, key, items[..n - 1])), key, text);
  }

  lemma {:induction false} SetRebuilt(w: World, c: Conn, key: Key, items: seq<RdbFormat.Str>, n: nat)
    requires Lawful(w) && (c.sel, key) !in c.data && 0 < n <= |items|
    ensures Replay(w, c, ItemCommands(SADD, key, items[..n])) ==
      c.(data := c.data[(c.sel, key) := RdbFormat.SetValue(RdbFormat.Members(RdbFormat.Texts(items[..n])))])
    decreases n
  {
    hide RdbFormat.TextOf, Lawful, Apply, Replay, ItemCommands;
    var text := RdbFormat.TextOf(items[n - 1]);
    LastItem(w, c, SADD, key, items, n);
    var texts := RdbFormat.Texts(items[..n - 1]);
    var before := RdbFormat.Members(texts);
    assert RdbFormat.Texts(items[..n]) == texts + [text];
    assert RdbFormat.Members(texts + [text]) == before + {text};
    if n > 1 {
      SetRebuilt(w, c, key, items, n - 1);
      SetTwice(c.data, (c.sel, key), RdbFormat.SetValue(before), RdbFormat.SetValue(before + {text}));
    } else {
      NoItems(w, c, SADD, key, items);
      assert before == {};
    }
    SaddApplies(w, Replay(w, c, ItemCommands(SADD, key, items[..n - 1])), key, text);
  }

  lemma {:induction false} HashRebuilt(w: World, c: Conn, key: Key, fields: seq<(RdbFormat.Str, RdbFormat.Str)>, n: nat)
    requires Lawful(w) && (c.sel, key) !in c.data && 0 < n <= |fields|
    ensures Replay(w, c, FieldCommands(key, fields[..n])) ==
      c.(data := c.data[(c.sel, key) := RdbFormat.HashValue(RdbFormat.FieldMap(fields[..n]))])
    decreases n
  {
    hide RdbFormat.TextOf, Lawful, Apply, Replay, FieldCommands, RdbFormat.FieldMap;
    var f, v := RdbFormat.TextOf(fields[n - 1].0), RdbFormat.TextOf(fields[n - 1].1);
    LastField(w, c, key, fields, n);
    RdbFormat.FieldMapLast(fields, n - 1);
    var before := RdbFormat.FieldMap(fields[..n - 1]);
    if n > 1 {
      HashRebuilt(w, c, key, fields, n - 1);
      SetTwice(c.data, (c.sel, key), RdbFormat.HashValue(before), RdbFormat.HashValue(before[f := v]));
    } else {
      NoFields(w, c, key, fields);
    }
    HsetApplies(w, Replay(w, c, FieldCommands(key, fields[..n - 1])), key, f, v);
  }

  lemma NoItems(w: World, c: Conn, name: seq<byte>, key: Key, items: seq<RdbFormat.Str>)
    ensures Replay(w, c, ItemCommands(name, key, items[..0])) == c
  {
  }

  lemma NoFields(w: World, c: Conn, key: Key, fields: seq<(RdbFormat.Str, RdbFormat.Str)>)
    ensures Replay(w, c, FieldCommands(key, fields[..0])) == c && RdbFormat.FieldMap(fields[..0]) == map[]
  {
  }

  lemma LastField(w: World, c: Conn, key: Key, fields: seq<(RdbFormat.Str, RdbFormat.Str)>, n: nat)
    requires 0 < n <= |fields|
    ensures Replay(w, c, FieldCommands(key, fields[..n])) ==
      Apply(w, Replay(w, c, FieldCommands(key, fields[..n - 1])),
            [HSET, key, RdbFormat.TextOf(fields[n - 1].0), RdbFormat.TextOf(fields[n - 1].1)])
  {
    hide Apply, RdbFormat.TextOf, Replay;
    var cmd: Command := [HSET, key, RdbFormat.TextOf(fields[n - 1].0), RdbFormat.TextOf(fields[n - 1].1)];
    assert FieldCommands(key, fields[..n]) == FieldCommands(key, fields[..n - 1]) + [cmd];
    ReplayAppend(w, c, FieldCommands(key, fields[..n - 1]), [cmd]);
    ReplayOne(w, Replay(w, c, FieldCommands(key, fields[..n - 1])), cmd);
  }

  lemma ReplayOne(w: World, c: Conn, cmd: Command)
    ensures Replay(w, c, [cmd]) == Apply(w, c, cmd)
  {
    hide Apply;
    assert [cmd][1..] == [];
  }

  lemma LastItem(w: World, c: Conn, name: seq<byte>, key: Key, items: seq<RdbFormat.Str>, n: nat)
    requires 0 < n <= |items|
    ensures Replay(w, c, ItemCommands(name, key, items[..n])) ==
      Apply(w, Replay(w, c, ItemCommands(name, key, items[..n - 1])), [name, key, RdbFormat.TextOf(items[n - 1])])
  {
    hide Apply, RdbFormat.TextOf, Replay;
    var cmd: Command := [name, key, RdbFormat.TextOf(items[n - 1])];
    assert ItemCommands(name, key, items[..n]) == ItemCommands(name, key, items[..n - 1]) + [cmd];
    ReplayAppend(w, c, ItemCommands(name, key, items[..n - 1]), [cmd]);
    ReplayOne(w, Replay(w, c, ItemCommands(name, key, items[..n - 1])), cmd);
  }

  /** The commands for one key build exactly its value. */
  lemma EntryRebuilt(w: World, c: Conn, key: Key, o: RdbFormat.Object)
    requires Lawful(w) && NonEmpty(o) && (c.sel, key) !in c.data
    ensures Replay(w, c, EntryCommands(key, o)) == c.(data := c.data[(c.sel, key) := RdbFormat.ValueOf(o)])
  {
    hide RdbFormat.TextOf, Lawful, Apply, Replay, ItemCommands, FieldCommands, RdbFormat.FieldMap, RdbFormat.Texts,
      RdbFormat.Members;
    match o
    case StringObject(x) =>
      SetApplies(w, c, key, RdbFormat.TextOf(x));
      ReplayOne(w, c, [SET, key, RdbFormat.TextOf(x)]);
    case ListObject(items) =>
      assert items[..|items|] == items;
      ListRebuilt(w, c, key, items, |items|);
    case SetObject(members) =>
      assert members[..|members|] == members;
      SetRebuilt(w, c, key, members, |members|);
    case HashObject(fields) =>
      assert fields[..|fields|] == fields;
      HashRebuilt(w, c, key, fields, |fields|);
  }

  lemma {:induction false} EntriesRebuilt(w: World, c: Conn, es: Entries)
    requires Lawful(w) && ValidEntries(es) && forall k: Key :: (c.sel, k) !in c.data
    ensures Replay(w, c, AllEntryCommands(es)) == c.(data := WithEntries(c.data, c.sel, es))
    ensures forall p :: p in WithEntries(c.data, c.sel, es) ==>
      p in c.data || (p.0 == c.sel && exists i :: 0 <= i < |es| && es[i].0 == p.1)
    decreases |es|
  {
    hide Lawful, EntryCommands, NonEmpty, RdbFormat.ValueOf;
    if es != [] {
      var front, last := es[..|es| - 1], es[|es| - 1];
      EntriesRebuilt(w, c, front);
      var data := WithEntries(c.data, c.sel, front);
      assert (c.sel, last.0) !in data;
      ReplayAppend(w, c, AllEntryCommands(front), EntryCommands(last.0, last.1));
      EntryRebuilt(w, c.(data := data), last.0, last.1);
      forall p | p in WithEntries(c.data, c.sel, es)
        ensures p in c.data || (p.0 == c.sel && exists i :: 0 <= i < |es| && es[i].0 == p.1)
      {
        if p in data && p !in c.data {
          var i :| 0 <= i < |front| && front[i].0 == p.1;
          assert es[i].0 == p.1;
        }
      }
    }
  }

  /** A rewritten file rebuilds exactly the dataset it was made from. */
  lemma {:induction false} RewriteRebuilds(w: World, dbs: seq<Entries>)
    requires Lawful(w) && ValidDbs(w, dbs)
    ensures Replay(w, START, RewriteCommands(dbs)).data == DataOf(dbs)
    ensures forall p :: p in DataOf(dbs) ==> 0 <= p.0 < |dbs|
    decreases |dbs|
  {
    hide Lawful, ValidEntries, Apply, AllEntryCommands, WithEntries;
    if dbs != [] {
      var j := |dbs| - 1;
      RewriteRebuilds(w, dbs[..j]);
      var c := Replay(w, START, RewriteCommands(dbs[..j]));
      var cmds := [Selecting(j)] + AllEntryCommands(dbs[j]);
      EntriesRebuilt(w, c.(sel := j), dbs[j]);
      NoEntries(c.data, j);
      if dbs[j] != [] {
        ReplayAppend(w, START, RewriteCommands(dbs[..j]), cmds);
        DbnumFits(w);
        SelectApplies(w, c, j);
        ReplayAppend(w, c, [Selecting(j)], AllEntryCommands(dbs[j]));
        ReplayOne(w, c, Selecting(j));
      } else {
        assert RewriteCommands(dbs) == RewriteCommands(dbs[..j]);
      }
    }
  }

  lemma NoEntries(data: Dataset, db: int)
    ensures WithEntries(data, db, []) == data
  {
  }

  lemma DbnumFits(w: World)
    requires Lawful(w)
    ensures 0 < w.dbnum <= INT_MAX
  {
  }

  // ----- Writing the rewritten file -----

  method RewriteAppendOnlyFile(dbs: seq<Entries>) returns (file: seq<byte>)
    ensures file == EncodeAll(RewriteCommands(dbs))
  {
    hide Encode, EntryCommands, AllEntryCommands;
    file := [];
    var j := 0;
    while j < |dbs|
      invariant 0 <= j <= |dbs|
      invariant file == EncodeAll(RewriteCommands(dbs[..j]))
    {
      assert dbs[..j + 1][..j] == dbs[..j];
      if dbs[j] != [] {
        ghost var before := RewriteCommands(dbs[..j]);
        EncodeOne(before, Selecting(j));
        file := CatGenericCommand(file, Selecting(j));
        file := RewriteDb(file, before + [Selecting(j)], dbs[j]);
        assert before + [Selecting(j)] + AllEntryCommands(dbs[j]) ==
          before + ([Selecting(j)] + AllEntryCommands(dbs[j]));
      } else {
        assert RewriteCommands(dbs[..j + 1]) == RewriteCommands(dbs[..j]);
      }
      j := j + 1;
    }
    assert dbs[..j] == dbs;
  }

  lemma EncodeOne(cmds: seq<Command>, cmd: Command)
    ensures EncodeAll(cmds + [cmd]) == EncodeAll(cmds) + Encode(cmd)
  {
    hide Encode;
    EncodeAllAppend(cmds, [cmd]);
    assert [cmd][1..] == [];
    assert Encode(cmd) + [] == Encode(cmd);
  }

  method RewriteDb(out: seq<byte>, ghost before: seq<Command>, es: Entries) returns (file: seq<byte>)
    requires out == EncodeAll(before)
    ensures file == EncodeAll(before + AllEntryCommands(es))
  {
    hide Encode, EncodeAll, EntryCommands;
    file := out;
    var i := 0;
    assert before + [] == before;
    while i < |es|
      invariant 0 <= i <= |es|
      invariant file == EncodeAll(before + AllEntryCommands(es[..i]))
    {
      assert es[..i + 1][..i] == es[..i];
      ghost var done := before + AllEntryCommands(es[..i]);
      file := RewriteEntry(file, done, es[i].0, es[i].1);
      assert done + EntryCommands(es[i].0, es[i].1) ==
        before + (AllEntryCommands(es[..i]) + EntryCommands(es[i].0, es[i].1));
      i := i + 1;
    }
    assert es[..i] == es;
  }

  method RewriteEntry(out: seq<byte>, ghost before: seq<Command>, key: Key, o: RdbFormat.Object)
    returns (file: seq<byte>)
    requires out == EncodeAll(before)
    ensures file == EncodeAll(before + EntryCommands(key, o))
  {
    hide Encode, EncodeAll, RdbFormat.TextOf, ItemCommands, FieldCommands;
    match o
    case StringObject(x) =>
      EncodeOne(before, [SET, key, RdbFormat.TextOf(x)]);
      file := CatGenericCommand(out, [SET, key, RdbFormat.TextOf(x)]);
    case ListObject(items) => file := RewriteItems(out, before, RPUSH, key, items);
    case SetObject(members) => file := RewriteItems(out, before, SADD, key, members);
    case HashObject(fields) => file := RewriteFields(out, before, key, fields);
  }

  method RewriteItems(out: seq<byte>, ghost before: seq<Command>, name: seq<byte>, key: Key, items: seq<RdbFormat.Str>)
    returns (file: seq<byte>)
    requires out == EncodeAll(before)
    ensures file == EncodeAll(before + ItemCommands(name, key, items))
  {
    hide Encode, EncodeAll, RdbFormat.TextOf;
    file := out;
    var i := 0;
    assert before + ItemCommands(name, key, []) == before;
    while i < |items|
      invariant 0 <= i <= |items|
      invariant file == EncodeAll(before + ItemCommands(name, key, items[..i]))
    {
      ghost var cmd := [name, key, RdbFormat.TextOf(items[i])];
      EncodeOne(before + ItemCommands(name, key, items[..i]), cmd);
      assert ItemCommands(name, key, items[..i + 1]) == ItemCommands(name, key, items[..i]) + [cmd];
      assert before + ItemCommands(name, key, items[..i]) + [cmd] == before + ItemCommands(name, key, items[..i + 1]);
      file := CatGenericCommand(file, [name, key, RdbFormat.TextOf(items[i])]);
      i := i + 1;
    }
    assert items[..i] == items;
  }

  method RewriteFields(out: seq<byte>, ghost before: seq<Command>, key: Key,
                       fields: seq<(RdbFormat.Str, RdbFormat.Str)>)
    returns (file: seq<byte>)
    requires out == EncodeAll(before)
    ensures file == EncodeAll(before + FieldCommands(key, fields))
  {
    hide Encode, EncodeAll, RdbFormat.TextOf;
    file := out;
    var i := 0;
    assert before + FieldCommands(key, []) == before;
    while i < |fields|
      invariant 0 <= i <= |fields|
      invariant file == EncodeAll(before + FieldCommands(key, fields[..i]))
    {
      ghost var cmd := [HSET, key, RdbFormat.TextOf(fields[i].0), RdbFormat.TextOf(fields[i].1)];
      EncodeOne(before + FieldCommands(key, fields[..i]), cmd);
      assert FieldCommands(key, fields[..i + 1]) == FieldCommands(key, fields[..i]) + [cmd];
      assert before + FieldCommands(key, fields[..i]) + [cmd] == before + FieldCommands(key, fields[..i + 1]);
      file := CatGenericCommand(file, [HSET, key, RdbFormat.TextOf(fields[i].0), RdbFormat.TextOf(fields[i].1)]);
      i := i + 1;
    }
    assert fields[..i] == fields;
  }
}
